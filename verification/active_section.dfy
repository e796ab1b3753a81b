/**
 The scroll handler that highlights the navigation link of the section being
 read. It walks the page's sections in document order and remembers the id
 of every section whose top is at most 200 pixels below the scroll offset, so
 the last such section wins. Every navigation link then loses its `active`
 class and gets the primary colour if its href is "#" followed by that id,
 and no colour otherwise.
 */
module ActiveSection {
  import opened Js

  /** A section element: its id attribute and its offsetTop (an integer). */
  datatype Section = Section(id: Attr, top: int)

  /** A navigation link: its href attribute, whether it has the `active` class, and its inline colour. */
  datatype NavLink = NavLink(href: Attr, active: bool, color: string)

  /** How far below the scroll offset a section's top may be and still count as reached. */
  const Lookahead := 200

  const PrimaryColor := "var(--primary-color)"

  /** pageYOffset >= sectionTop - 200. */
  predicate Reached(s: Section, offset: real) {
    offset >= (s.top - Lookahead) as real
  }

  /**
   The `current` the handler computes: the id attribute of the last reached
   section in document order, or "" when no section is reached. A reached
   section without an id yields null.
   */
  method Current(sections: seq<Section>, offset: real) returns (current: Attr)
    ensures (forall i :: 0 <= i < |sections| ==> !Reached(sections[i], offset)) ==> current == Str("")
    ensures forall k :: 0 <= k < |sections| && Reached(sections[k], offset) &&
                        (forall j :: k < j < |sections| ==> !Reached(sections[j], offset)) ==>
                          current == sections[k].id
  {
    current := Str("");
    var i := 0;
    while i < |sections|
      invariant 0 <= i <= |sections|
      invariant (forall j :: 0 <= j < i ==> !Reached(sections[j], offset)) ==> current == Str("")
      invariant forall k :: 0 <= k < i && Reached(sections[k], offset) &&
                            (forall j :: k < j < i ==> !Reached(sections[j], offset)) ==>
                              current == sections[k].id
    {
      if Reached(sections[i], offset) {
        current := sections[i].id;
      }
      i := i + 1;
    }
  }

  /** The href a link must have to be highlighted: "#" + current, where null prints as "null". */
  function Target(current: Attr): string {
    "#" + ToJsString(current)
  }

  /** One link after the handler: never `active`, primary colour iff its href is the target. */
  function Restyle(link: NavLink, current: Attr): (l: NavLink)
    ensures l.href == link.href && !l.active
    ensures l.color == PrimaryColor <==> link.href == Str(Target(current))
    ensures l.color == "" <==> link.href != Str(Target(current))
  {
    if link.href == Str(Target(current)) then
      NavLink(link.href, false, PrimaryColor)
    else
      NavLink(link.href, false, "")
  }

  /** The whole scroll handler: pick the current section, then restyle every link. */
  method OnScroll(sections: seq<Section>, links: seq<NavLink>, offset: real)
    returns (current: Attr, styled: seq<NavLink>)
    ensures (forall i :: 0 <= i < |sections| ==> !Reached(sections[i], offset)) ==> current == Str("")
    ensures forall k :: 0 <= k < |sections| && Reached(sections[k], offset) &&
                        (forall j :: k < j < |sections| ==> !Reached(sections[j], offset)) ==>
                          current == sections[k].id
    ensures |styled| == |links|
    ensures forall i :: 0 <= i < |links| ==>
              && styled[i].href == links[i].href
              && !styled[i].active
              && (styled[i].color == PrimaryColor <==> links[i].href == Str(Target(current)))
              && (styled[i].color == "" <==> links[i].href != Str(Target(current)))
  {
    current := Current(sections, offset);
    styled := [];
    var i := 0;
    while i < |links|
      invariant 0 <= i <= |links|
      invariant |styled| == i
      invariant forall j :: 0 <= j < i ==> styled[j] == Restyle(links[j], current)
    {
      styled := styled + [Restyle(links[i], current)];
      i := i + 1;
    }
  }

  /** When the links' hrefs are pairwise different, at most one link is highlighted. */
  lemma AtMostOneHighlighted(links: seq<NavLink>, current: Attr, i: int, j: int)
    requires forall a, b :: 0 <= a < b < |links| ==> links[a].href != links[b].href
    requires 0 <= i < j < |links|
    ensures !(Restyle(links[i], current).color == PrimaryColor && Restyle(links[j], current).color == PrimaryColor)
  {
  }

  /** With no section reached (current is ""), a link whose href is just "#" gets the primary colour. */
  lemma HashLinkAtTop(link: NavLink)
    requires link.href == Str("#")
    ensures Restyle(link, Str("")).color == PrimaryColor
  {
  }
}

/** highlightActiveNavLink: find the section the page is scrolled into and mark the
    navigation links that point at it. */
module NavHighlight {

  /** A `section[id]` element: its id and its offsetTop and offsetHeight in pixels. */
  datatype Section = Section(id: string, top: int, height: int)

  /** Sections count as reached 100 pixels before their top. */
  const ScrollOffset: int := 100

  /** The scroll position lies in the section's interval, shifted up by the offset: its
      distance below the shifted top is less than the height, so only a section of
      positive height can cover anything. */
  predicate Covers(s: Section, scroll: int): (b: bool)
    ensures b <==> 0 <= scroll - (s.top - ScrollOffset) < s.height
    ensures b ==> s.height > 0
  {
    s.top - ScrollOffset <= scroll < s.top - ScrollOffset + s.height
  }

  /** The id of the last section, in document order, that covers the scroll position,
      or the empty string when none does. */
  function LastCoveringId(sections: seq<Section>, scroll: int): (current: string)
    ensures (forall k :: 0 <= k < |sections| ==> !Covers(sections[k], scroll)) ==> current == ""
    ensures (exists k :: 0 <= k < |sections| && Covers(sections[k], scroll)) ==>
              exists k :: 0 <= k < |sections| && Covers(sections[k], scroll) && current == sections[k].id &&
                forall j :: k < j < |sections| ==> !Covers(sections[j], scroll)
    decreases |sections|
  {
    if sections == [] then ""
    else if Covers(sections[|sections| - 1], scroll) then sections[|sections| - 1].id
    else LastCoveringId(sections[..|sections| - 1], scroll)
  }

  /** The first loop of highlightActiveNavLink: walk the sections, remembering the id of
      each one that covers the scroll position. */
  method CurrentSection(sections: seq<Section>, scroll: int) returns (current: string)
    ensures current == LastCoveringId(sections, scroll)
  {
    current := "";
    for i := 0 to |sections|
      invariant current == LastCoveringId(sections[..i], scroll)
    {
      assert sections[..i + 1][..i] == sections[..i];
      if Covers(sections[i], scroll) {
        current := sections[i].id;
      }
    }
    assert sections[..|sections|] == sections;
  }

  /** The anchor a link must carry to be marked for section `current`: a '#' followed by
      exactly the id. */
  function Anchor(current: string): (r: string)
    ensures |r| == |current| + 1 && r[0] == '#' && r[1..] == current
  {
    "#" + current
  }

  /** The second loop: every link loses `active`, then gains it back exactly when its
      href is the anchor of the current section. */
  method MarkLinks(hrefs: seq<string>, active: array<bool>, current: string)
    requires active.Length == |hrefs|
    modifies active
    ensures forall k :: 0 <= k < |hrefs| ==> (active[k] <==> hrefs[k] == Anchor(current))
  {
    for k := 0 to active.Length
      invariant forall j :: 0 <= j < k ==> (active[j] <==> hrefs[j] == Anchor(current))
    {
      active[k] := false;
      if hrefs[k] == Anchor(current) {
        active[k] := true;
      }
    }
  }

  /** The whole handler: a link ends up active exactly when its href names the last
      section covering the scroll position. */
  method HighlightActiveNavLink(sections: seq<Section>, scroll: int, hrefs: seq<string>, active: array<bool>)
    requires active.Length == |hrefs|
    modifies active
    ensures forall k :: 0 <= k < |hrefs| ==> (active[k] <==> hrefs[k] == Anchor(LastCoveringId(sections, scroll)))
  {
    var current := CurrentSection(sections, scroll);
    MarkLinks(hrefs, active, current);
  }

  /** When no section covers the scroll position only the links whose href is exactly
      "#" are marked. */
  lemma NoSectionMarksBareAnchor(sections: seq<Section>, scroll: int, href: string)
    requires forall k :: 0 <= k < |sections| ==> !Covers(sections[k], scroll)
    ensures href == Anchor(LastCoveringId(sections, scroll)) <==> href == "#"
  {
  }

  /** The covering section that comes after every other covering section is the one
      whose id is picked. */
  lemma {:induction false} LastCoveringSectionPicked(sections: seq<Section>, scroll: int, k: nat)
    requires k < |sections| && Covers(sections[k], scroll)
    requires forall j :: k < j < |sections| ==> !Covers(sections[j], scroll)
    ensures LastCoveringId(sections, scroll) == sections[k].id
    decreases |sections|
  {
    if k < |sections| - 1 {
      LastCoveringSectionPicked(sections[..|sections| - 1], scroll, k);
    }
  }
}

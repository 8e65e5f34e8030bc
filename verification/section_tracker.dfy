/** The scroll-spy: on every scroll event the page probes 100 pixels below
    the top of the viewport and marks as active the first section, in
    document order, whose box contains the probe. */
module SectionTracker {
  import opened Wrappers

  /** The ids the scroll handler scans, in document order. */
  const ScannedIds: seq<string> := ["hero", "about", "skills", "certifications", "experience", "projects", "contact"]

  /** The ids the navigation bar renders a button for (no "hero"). */
  const NavIds: seq<string> := ["about", "skills", "certifications", "experience", "projects", "contact"]

  /** The active section before any scroll event. */
  const InitialActive: string := "hero"

  /** Distance below the viewport top at which the probe is taken. */
  const HeaderOffset: int := 100

  /** A section element's offsetTop and offsetHeight. */
  datatype Extent = Extent(top: int, height: int)

  /** A scanned id and its element's box; None when the page has no element with that id. */
  datatype Section = Section(id: string, extent: Option<Extent>)

  /** The half-open box [top, top + height) of an existing element contains `probe`. */
  predicate Covers(e: Option<Extent>, probe: int) {
    e.Some? && e.value.top <= probe < e.value.top + e.value.height
  }

  /** `k` is the position of the first section, in list order, covering `probe`. */
  predicate IsFirstMatch(sections: seq<Section>, probe: int, k: int) {
    && 0 <= k < |sections|
    && Covers(sections[k].extent, probe)
    && forall j :: 0 <= j < k ==> !Covers(sections[j].extent, probe)
  }

  predicate NoMatch(sections: seq<Section>, probe: int) {
    forall j :: 0 <= j < |sections| ==> !Covers(sections[j].extent, probe)
  }

  /** The position of the first section covering `probe`, skipping sections
      without an element; None when no section covers it. */
  function FirstMatch(sections: seq<Section>, probe: int): (r: Option<nat>)
    ensures r.Some? ==> IsFirstMatch(sections, probe, r.value)
    ensures r.None? <==> NoMatch(sections, probe)
  {
    if |sections| == 0 then None
    else if Covers(sections[0].extent, probe) then Some(0)
    else
      match FirstMatch(sections[1..], probe)
      case None =>
        assert forall j :: 1 <= j < |sections| ==> sections[j] == sections[1..][j - 1];
        None
      case Some(k) =>
        assert forall j :: 1 <= j <= k + 1 ==> sections[j] == sections[1..][j - 1];
        Some(k + 1)
  }

  /** The active section after one scroll event at `scrollY`: the first
      covering section's id, or `active` unchanged when none covers the probe. */
  function Track(sections: seq<Section>, scrollY: int, active: string): (r: string)
    ensures forall k :: IsFirstMatch(sections, scrollY + HeaderOffset, k) ==> r == sections[k].id
    ensures NoMatch(sections, scrollY + HeaderOffset) ==> r == active
    ensures r == active || exists k :: 0 <= k < |sections| && sections[k].id == r
  {
    match FirstMatch(sections, scrollY + HeaderOffset)
    case None => active
    case Some(k) => sections[k].id
  }

  /** The scroll handler as the page writes it: a loop over the sections that
      stops at the first element whose box contains the probe. */
  method HandleScroll(sections: seq<Section>, scrollY: int, active: string) returns (r: string)
    ensures r == Track(sections, scrollY, active)
  {
    var probe := scrollY + HeaderOffset;
    var i := 0;
    while i < |sections|
      invariant 0 <= i <= |sections|
      invariant forall j :: 0 <= j < i ==> !Covers(sections[j].extent, probe)
    {
      var section := sections[i];
      if section.extent.Some? {
        var e := section.extent.value;
        if probe >= e.top && probe < e.top + e.height {
          assert IsFirstMatch(sections, probe, i);
          return section.id;
        }
      }
      i := i + 1;
    }
    return active;
  }

  /** The list the handler builds: the scanned ids in their fixed order, each
      with the box of the element `lookup` finds for it (None when there is none). */
  function PageLayout(lookup: string -> Option<Extent>): (r: seq<Section>)
    ensures |r| == |ScannedIds|
    ensures forall i :: 0 <= i < |r| ==> r[i].id == ScannedIds[i] && r[i].extent == lookup(ScannedIds[i])
  {
    seq(|ScannedIds|, i requires 0 <= i < |ScannedIds| => Section(ScannedIds[i], lookup(ScannedIds[i])))
  }

  /** `k` is the first scanned id, in scan order, whose element covers `probe`. */
  predicate IsFirstPageMatch(lookup: string -> Option<Extent>, probe: int, k: int) {
    && 0 <= k < |ScannedIds|
    && Covers(lookup(ScannedIds[k]), probe)
    && forall j :: 0 <= j < k ==> !Covers(lookup(ScannedIds[j]), probe)
  }

  /** One scroll event on the real page: the first of the seven ids, in scan
      order, whose element contains `scrollY + 100`; otherwise `active`. */
  function PageTrack(lookup: string -> Option<Extent>, scrollY: int, active: string): (r: string)
    ensures forall k :: IsFirstPageMatch(lookup, scrollY + HeaderOffset, k) ==> r == ScannedIds[k]
    ensures (forall k :: 0 <= k < |ScannedIds| ==> !Covers(lookup(ScannedIds[k]), scrollY + HeaderOffset)) ==> r == active
    ensures active in ScannedIds ==> r in ScannedIds
  {
    var layout, probe := PageLayout(lookup), scrollY + HeaderOffset;
    assert forall k :: IsFirstPageMatch(lookup, probe, k) ==> IsFirstMatch(layout, probe, k);
    Track(layout, scrollY, active)
  }

  /** No two sections' boxes overlap. */
  predicate Disjoint(sections: seq<Section>) {
    forall i, j :: 0 <= i < j < |sections| && sections[i].extent.Some? && sections[j].extent.Some? ==>
      var a, b := sections[i].extent.value, sections[j].extent.value;
      a.top + a.height <= b.top || b.top + b.height <= a.top
  }

  /** When the boxes do not overlap, a probe inside one section's box makes
      that section active, and no other section contains the probe. */
  lemma DisjointSelectsContaining(sections: seq<Section>, scrollY: int, active: string, k: int)
    requires Disjoint(sections)
    requires 0 <= k < |sections| && Covers(sections[k].extent, scrollY + HeaderOffset)
    ensures Track(sections, scrollY, active) == sections[k].id
    ensures forall j :: 0 <= j < |sections| && j != k ==> !Covers(sections[j].extent, scrollY + HeaderOffset)
  {
    assert IsFirstMatch(sections, scrollY + HeaderOffset, k);
  }

  /** A scroll event: the page layout at that moment and the scroll offset. */
  datatype ScrollEvent = ScrollEvent(layout: seq<Section>, scrollY: int)

  /** The active section after a series of scroll events. */
  function Replay(active: string, events: seq<ScrollEvent>): string
    decreases |events|
  {
    if |events| == 0 then active
    else Replay(Track(events[0].layout, events[0].scrollY, active), events[1..])
  }

  /** Every layout lists only scanned ids. */
  predicate LayoutsUseScannedIds(events: seq<ScrollEvent>) {
    forall e, s :: e in events && s in e.layout ==> s.id in ScannedIds
  }

  /** Starting from "hero" (or any scanned id), the active section is always
      one of the scanned ids: it never becomes undefined, whatever the scrolling. */
  lemma {:induction false} ReplayStaysScanned(active: string, events: seq<ScrollEvent>)
    requires active in ScannedIds
    requires LayoutsUseScannedIds(events)
    ensures Replay(active, events) in ScannedIds
    decreases |events|
  {
    if |events| > 0 {
      var e := events[0];
      var next := Track(e.layout, e.scrollY, active);
      if next != active {
        var k :| 0 <= k < |e.layout| && e.layout[k].id == next;
        assert e.layout[k] in e.layout;
      }
      assert LayoutsUseScannedIds(events[1..]) by {
        forall e', s | e' in events[1..] && s in e'.layout
          ensures s.id in ScannedIds
        {
          assert e' in events;
        }
      }
      ReplayStaysScanned(next, events[1..]);
    }
  }

  /** Which navigation buttons are drawn highlighted for a given active id. */
  function NavHighlight(active: string): (r: seq<bool>)
    ensures |r| == |NavIds|
    ensures forall i :: 0 <= i < |r| ==> (r[i] <==> NavIds[i] == active)
    ensures forall i, j :: 0 <= i < j < |r| ==> !(r[i] && r[j])
    ensures (exists i :: 0 <= i < |r| && r[i]) <==> active in NavIds
  {
    var r := seq(|NavIds|, i requires 0 <= i < |NavIds| => NavIds[i] == active);
    assert forall i :: 0 <= i < |NavIds| ==> (r[i] <==> NavIds[i] == active);
    r
  }

  /** While the hero section is active no navigation button is highlighted. */
  lemma HeroHighlightsNothing()
    ensures forall i :: 0 <= i < |NavIds| ==> !NavHighlight(InitialActive)[i]
  {
    assert InitialActive !in NavIds;
  }

  /** The seven scanned sections stacked top to bottom, 800 pixels each. */
  function StackedPage(): seq<Section>
  {
    seq(|ScannedIds|, i requires 0 <= i < |ScannedIds| => Section(ScannedIds[i], Some(Extent(800 * i, 800))))
  }

  /** Scrolling to 1650 puts the probe at 1750, inside the third box, so
      "skills" becomes active; scrolling past the page keeps it. */
  lemma StackedPageScenario()
    ensures Track(StackedPage(), 1650, InitialActive) == "skills"
    ensures Replay(InitialActive, [ScrollEvent(StackedPage(), 1650), ScrollEvent(StackedPage(), 9000)]) == "skills"
  {
    var page := StackedPage();
    assert Disjoint(page);
    DisjointSelectsContaining(page, 1650, InitialActive, 2);
    assert NoMatch(page, 9100);
  }
}

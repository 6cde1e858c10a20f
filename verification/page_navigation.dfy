/**
 * The "next section" button of the study dashboards: find the last section
 * whose top has scrolled above a line 40% down the viewport, and scroll to
 * the one after it (never past the last).
 */
module PageNavigation {
  import opened Common

  /** The sections in page order, by element id. */
  const SectionOrder: seq<string> := ["page-map", "page-2", "page-3"]

  /** `order.length`, spelled out so that index arithmetic stays on integers. */
  const SectionCount: nat := 3

  /**
   * The page as the handler sees it: the `offsetTop` of every section element
   * present in the document (a missing element has no entry).
   */
  type Layout = map<string, real>

  /** `window.scrollY + window.innerHeight * 0.4`. */
  function ProbeLine(scrollY: real, innerHeight: real): real
  {
    scrollY + innerHeight * 0.4
  }

  /** Section `i` exists and its top is at or above the probe line. */
  predicate Reached(layout: Layout, y: real, i: nat)
    requires i < SectionCount
  {
    SectionOrder[i] in layout && layout[SectionOrder[i]] <= y
  }

  /**
   * The last reached section among the first `k`, or 0 when none is: the
   * value of `currentIdx` after `k` rounds of the loop.
   */
  function LastReached(layout: Layout, y: real, k: nat): (idx: nat)
    requires k <= SectionCount
    ensures idx == 0 || (idx < k && Reached(layout, y, idx))
    ensures forall j :: idx < j < k ==> !Reached(layout, y, j)
  {
    if k == 0 then 0
    else if Reached(layout, y, k - 1) then k - 1
    else LastReached(layout, y, k - 1)
  }

  /**
   * The click handler.  `currentIdx` is the last existing section whose top is
   * at or above the probe line (0 if none), the target is the section after
   * it, capped at the last, and the page scrolls only if that element exists.
   */
  method NextSection(layout: Layout, scrollY: real, innerHeight: real)
    returns (currentIdx: nat, nextId: string, scrollTo: Option<string>)
    ensures currentIdx == LastReached(layout, ProbeLine(scrollY, innerHeight), SectionCount)
    ensures currentIdx < SectionCount
    ensures nextId == SectionOrder[TargetIndex(currentIdx)]
    ensures scrollTo == (if nextId in layout then Some(nextId) else None)
  {
    var y := ProbeLine(scrollY, innerHeight);
    currentIdx := 0;
    var i := 0;
    while i < SectionCount
      invariant 0 <= i <= SectionCount
      invariant currentIdx == LastReached(layout, y, i)
    {
      var id := SectionOrder[i];
      if id !in layout {
        i := i + 1;
        continue;
      }
      if layout[id] <= y {
        currentIdx := i;
      }
      i := i + 1;
    }
    nextId := SectionOrder[TargetIndex(currentIdx)];
    scrollTo := if nextId in layout then Some(nextId) else None;
  }

  /** `Math.min(currentIdx + 1, order.length - 1)`. */
  function TargetIndex(currentIdx: nat): nat
  {
    if currentIdx + 1 < SectionCount then currentIdx + 1 else SectionCount - 1
  }

  /**
   * The button never targets a section past the last, and never targets the
   * first section: from any position it moves to the second or the third.
   */
  lemma TargetInRange(layout: Layout, y: real)
    ensures 1 <= TargetIndex(LastReached(layout, y, SectionCount)) <= SectionCount - 1
  {
  }

  /** Scrolling further down never moves the current section back up. */
  lemma {:induction false} LastReachedMonotone(layout: Layout, y: real, y': real, k: nat)
    requires k <= SectionCount && y <= y'
    ensures LastReached(layout, y, k) <= LastReached(layout, y', k)
  {
    if k > 0 && !Reached(layout, y, k - 1) {
      LastReachedMonotone(layout, y, y', k - 1);
    }
  }
}

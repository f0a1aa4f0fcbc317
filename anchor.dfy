/** The scan for the page that opens the spare-parts section
    (`find_spare_parts_page_simple`). */
module Anchor {
  import opened Strings
  import opened Options
  import opened Document

  const Marker: string := "SUGGESTED SPARE PARTS"

  /** The page's text could be read and, upper-cased, holds the marker. A
      page whose text cannot be read is never an anchor. */
  predicate IsAnchorPage(p: Page) {
    p.text.Some? && Contains(Upper(p.text.value), Marker)
  }

  /** The first anchor page at or after `from`. */
  function FirstAnchorFrom(pages: seq<Page>, from: nat): (r: Option<nat>)
    requires from <= |pages|
    ensures r.Some? ==> from <= r.value < |pages| && IsAnchorPage(pages[r.value])
    ensures forall j | from <= j < |pages| && (r.None? || j < r.value) :: !IsAnchorPage(pages[j])
    decreases |pages| - from
  {
    if from == |pages| then None
    else if IsAnchorPage(pages[from]) then Some(from)
    else FirstAnchorFrom(pages, from + 1)
  }

  /** The least index of an anchor page, or `None` when there is none. */
  function FirstAnchor(pages: seq<Page>): (r: Option<nat>)
    ensures r.Some? ==> r.value < |pages| && IsAnchorPage(pages[r.value])
    ensures forall j | 0 <= j < |pages| && (r.None? || j < r.value) :: !IsAnchorPage(pages[j])
  {
    FirstAnchorFrom(pages, 0)
  }

  /** Scans the pages in order and stops at the first anchor; a page whose
      text cannot be read is passed over. */
  method FindSparePartsPage(pages: seq<Page>) returns (r: Option<nat>)
    ensures r == FirstAnchor(pages)
  {
    var i := 0;
    while i < |pages|
      invariant 0 <= i <= |pages|
      invariant FirstAnchorFrom(pages, i) == FirstAnchor(pages)
    {
      match pages[i].text {
        case None =>
        case Some(text) =>
          if Contains(Upper(text), Marker) {
            return Some(i);
          }
      }
      i := i + 1;
    }
    return None;
  }
}

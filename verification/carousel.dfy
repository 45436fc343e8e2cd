/**
 The carousel controller of the art-space screen: a current index into a fixed,
 non-empty list of artworks, and a tooltip flag. Every user action is a pure
 transition from one `Carousel` value to the next.
 */
module Carousel {
  import opened Artwork

  /** The screen's remembered state together with the list it indexes. */
  datatype Carousel = Carousel(artworks: seq<Artwork>, currentIndex: int, showTooltip: bool)

  /** The controller's invariant: the list is non-empty and the index selects
      one of its elements. */
  predicate Valid(c: Carousel) {
    |c.artworks| >= 1 && 0 <= c.currentIndex < |c.artworks|
  }

  /** The state the screen starts in: first artwork, tooltip hidden. */
  function Init(artworks: seq<Artwork>): (c: Carousel)
    requires |artworks| >= 1
    ensures Valid(c)
    ensures c.artworks == artworks
    ensures c.currentIndex == 0 && !c.showTooltip
  {
    Carousel(artworks, 0, false)
  }

  /** The artwork the screen renders; the invariant makes the lookup safe. */
  function CurrentArtwork(c: Carousel): (a: Artwork)
    requires Valid(c)
    ensures a in c.artworks
  {
    c.artworks[c.currentIndex]
  }

  /** The index after "next": the last index wraps to 0, every other index
      moves up by one. This is the circular successor modulo `n`. */
  function NextIndex(i: int, n: int): (r: int)
    requires 0 <= i < n
    ensures 0 <= r < n
    ensures r == (i + 1) % n
  {
    if i == n - 1 then 0 else i + 1
  }

  /** The index after "previous": index 0 wraps to `n - 1`, every other index
      moves down by one. This is the circular predecessor modulo `n`. */
  function PreviousIndex(i: int, n: int): (r: int)
    requires 0 <= i < n
    ensures 0 <= r < n
    ensures r == (i - 1 + n) % n
  {
    if i == 0 then n - 1 else i - 1
  }

  /** The "Next" button. */
  function Next(c: Carousel): (r: Carousel)
    requires Valid(c)
    ensures Valid(r)
    ensures r.artworks == c.artworks && r.showTooltip == c.showTooltip
    ensures r.currentIndex == (c.currentIndex + 1) % |c.artworks|
  {
    c.(currentIndex := NextIndex(c.currentIndex, |c.artworks|))
  }

  /** The "Previous" button. */
  function Previous(c: Carousel): (r: Carousel)
    requires Valid(c)
    ensures Valid(r)
    ensures r.artworks == c.artworks && r.showTooltip == c.showTooltip
    ensures r.currentIndex == (c.currentIndex - 1 + |c.artworks|) % |c.artworks|
  {
    c.(currentIndex := PreviousIndex(c.currentIndex, |c.artworks|))
  }

  /** A horizontal drag. A drag to the right (positive amount) shows the
      previous artwork; any other amount, zero included, shows the next one. */
  function Swipe(c: Carousel, dragAmount: real): (r: Carousel)
    requires Valid(c)
    ensures Valid(r)
    ensures dragAmount > 0.0 ==> r == Previous(c)
    ensures dragAmount <= 0.0 ==> r == Next(c)
  {
    var n := |c.artworks|;
    if dragAmount > 0.0 then
      c.(currentIndex := if c.currentIndex == 0 then n - 1 else c.currentIndex - 1)
    else
      c.(currentIndex := if c.currentIndex == n - 1 then 0 else c.currentIndex + 1)
  }

  /** A long press on the "Next" button raises the tooltip. */
  function LongPress(c: Carousel): (r: Carousel)
    ensures r.showTooltip
    ensures r.artworks == c.artworks && r.currentIndex == c.currentIndex
  {
    c.(showTooltip := true)
  }

  /** The tooltip's one-shot dismiss callback hides it. */
  function Dismiss(c: Carousel): (r: Carousel)
    ensures !r.showTooltip
    ensures r.artworks == c.artworks && r.currentIndex == c.currentIndex
  {
    c.(showTooltip := false)
  }
}

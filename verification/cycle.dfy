/**
 Laws of the carousel's navigation: the wraparound at both ends, next and
 previous undo each other, `n` steps in one direction come back to the start,
 and a one-artwork gallery never moves.
 */
module Cycle {
  import opened Carousel
  import opened ModArith

  /** Both ends of the list wrap: next from the last index gives 0 and
      previous from 0 gives the last index; elsewhere they step by one. */
  lemma WrapAround(c: Carousel)
    requires Valid(c)
    ensures c.currentIndex == |c.artworks| - 1 ==> Next(c).currentIndex == 0
    ensures c.currentIndex < |c.artworks| - 1 ==> Next(c).currentIndex == c.currentIndex + 1
    ensures c.currentIndex == 0 ==> Previous(c).currentIndex == |c.artworks| - 1
    ensures c.currentIndex > 0 ==> Previous(c).currentIndex == c.currentIndex - 1
  {
  }

  /** Next and previous are inverse to each other, for every list length. */
  lemma NextPreviousInverse(c: Carousel)
    requires Valid(c)
    ensures Previous(Next(c)) == c
    ensures Next(Previous(c)) == c
  {
  }

  /** A gallery of one artwork: next and previous keep the index, and only
      such a gallery has a state that next (or previous) leaves in place. */
  lemma SingleArtwork(c: Carousel)
    requires Valid(c)
    ensures Next(c) == c <==> |c.artworks| == 1
    ensures Previous(c) == c <==> |c.artworks| == 1
  {
  }

  /** The state after pressing "Next" `k` times. */
  function NextTimes(c: Carousel, k: nat): (r: Carousel)
    requires Valid(c)
    ensures Valid(r)
    ensures r.artworks == c.artworks && r.showTooltip == c.showTooltip
    ensures r.currentIndex == (c.currentIndex + k) % |c.artworks|
    decreases k
  {
    if k == 0 then c
    else
      var r := Next(NextTimes(c, k - 1));
      ModAddLeft(c.currentIndex + k - 1, 1, |c.artworks|);
      r
  }

  /** The state after pressing "Previous" `k` times. */
  function PreviousTimes(c: Carousel, k: nat): (r: Carousel)
    requires Valid(c)
    ensures Valid(r)
    ensures r.artworks == c.artworks && r.showTooltip == c.showTooltip
    ensures r.currentIndex == (c.currentIndex - k) % |c.artworks|
    decreases k
  {
    if k == 0 then c
    else
      var r := Previous(PreviousTimes(c, k - 1));
      ModAddLeft(c.currentIndex - (k - 1), |c.artworks| - 1, |c.artworks|);
      ModShiftOne(c.currentIndex - k, |c.artworks|);
      r
  }

  /** Pressing "Next" once per artwork comes back to the starting state. */
  lemma NextCycle(c: Carousel)
    requires Valid(c)
    ensures NextTimes(c, |c.artworks|) == c
  {
    ModFullTurn(c.currentIndex, |c.artworks|);
    var r := NextTimes(c, |c.artworks|);
    assert r.currentIndex == c.currentIndex;
  }

  /** Pressing "Previous" once per artwork comes back to the starting state. */
  lemma PreviousCycle(c: Carousel)
    requires Valid(c)
    ensures PreviousTimes(c, |c.artworks|) == c
  {
    ModFullTurn(c.currentIndex, |c.artworks|);
    var r := PreviousTimes(c, |c.artworks|);
    assert r.currentIndex == c.currentIndex;
  }
}

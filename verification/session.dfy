/**
 A session of the art-space screen as the sequence of input events the
 controller receives: button clicks, horizontal drags, long presses and the
 tooltip's expiry. Proves that any session keeps the controller's invariant,
 that the index only depends on the navigation events and the tooltip flag only
 on the tooltip events, and replays the screen's own three-artwork scenario.
 */
module Session {
  import opened Artwork
  import opened Carousel
  import opened ModArith

  /** One input the controller reacts to. `TooltipExpired` is the tooltip's
      one-shot dismiss callback, delivered as an explicit event. */
  datatype Event =
    | PreviousClick
    | NextClick
    | Drag(amount: real)
    | LongPressNext
    | TooltipExpired

  /** Events that act on the tooltip flag rather than on the index. */
  predicate IsTooltipEvent(e: Event) {
    e.LongPressNext? || e.TooltipExpired?
  }

  /** The controller's reaction to one event. */
  function Step(c: Carousel, e: Event): (r: Carousel)
    requires Valid(c)
    ensures Valid(r)
    ensures r.artworks == c.artworks
    ensures IsTooltipEvent(e) ==> r.currentIndex == c.currentIndex
    ensures !IsTooltipEvent(e) ==> r.showTooltip == c.showTooltip
    ensures e.LongPressNext? ==> r.showTooltip
    ensures e.TooltipExpired? ==> !r.showTooltip
  {
    match e
    case PreviousClick => Previous(c)
    case NextClick => Next(c)
    case Drag(amount) => Swipe(c, amount)
    case LongPressNext => LongPress(c)
    case TooltipExpired => Dismiss(c)
  }

  /** How far one event moves the index: +1 forward, -1 back, 0 not at all. */
  function Delta(e: Event): int {
    match e
    case PreviousClick => -1
    case NextClick => 1
    case Drag(amount) => if amount > 0.0 then -1 else 1
    case LongPressNext => 0
    case TooltipExpired => 0
  }

  /** The net forward displacement of a sequence of events. */
  function Net(es: seq<Event>): int {
    if |es| == 0 then 0 else Net(es[..|es| - 1]) + Delta(es[|es| - 1])
  }

  /** Reference description of the tooltip flag after a sequence of events:
      it is up exactly when some long press has not been followed by an
      expiry, or it was up to begin with and nothing has expired it. */
  ghost predicate TooltipUpAfter(up: bool, es: seq<Event>) {
    || (exists j :: 0 <= j < |es| && es[j].LongPressNext? && NotExpiredAfter(es, j + 1))
    || (up && NotExpiredAfter(es, 0))
  }

  /** No expiry among `es[from..]`. */
  ghost predicate NotExpiredAfter(es: seq<Event>, from: nat) {
    forall k :: from <= k < |es| ==> !es[k].TooltipExpired?
  }

  /** The state after the controller has processed `es`, in order. The index
      moves by the net displacement modulo the list length, and the tooltip
      flag is described by `TooltipUpAfter`, whatever the interleaving. */
  function Run(c: Carousel, es: seq<Event>): (r: Carousel)
    requires Valid(c)
    ensures Valid(r)
    ensures r.artworks == c.artworks
    ensures r.currentIndex == (c.currentIndex + Net(es)) % |c.artworks|
    decreases |es|
  {
    if |es| == 0 then c
    else
      var before := Run(c, es[..|es| - 1]);
      var e := es[|es| - 1];
      var m := c.currentIndex + Net(es[..|es| - 1]);
      var n := |c.artworks|;
      ModAddLeft(m, 1, n);
      ModAddLeft(m, n - 1, n);
      ModShiftOne(m - 1, n);
      Step(before, e)
  }

  /** The tooltip flag after a run depends only on the tooltip events. */
  lemma {:induction false} RunTooltip(c: Carousel, es: seq<Event>)
    requires Valid(c)
    ensures Run(c, es).showTooltip <==> TooltipUpAfter(c.showTooltip, es)
    decreases |es|
  {
    if |es| > 0 {
      var p := es[..|es| - 1];
      var e := es[|es| - 1];
      RunTooltip(c, p);
      assert forall k :: 0 <= k < |p| ==> p[k] == es[k];
      match e
      case LongPressNext =>
        assert es[|es| - 1].LongPressNext? && NotExpiredAfter(es, |es|);
      case TooltipExpired =>
        assert !NotExpiredAfter(es, 0);
      case _ =>
        assert !e.TooltipExpired?;
        if TooltipUpAfter(c.showTooltip, p) {
          if j :| 0 <= j < |p| && p[j].LongPressNext? && NotExpiredAfter(p, j + 1) {
            assert es[j].LongPressNext? && NotExpiredAfter(es, j + 1);
          } else {
            assert NotExpiredAfter(es, 0);
          }
        }
        if TooltipUpAfter(c.showTooltip, es) {
          if j :| 0 <= j < |es| && es[j].LongPressNext? && NotExpiredAfter(es, j + 1) {
            assert j < |p|;
            assert p[j].LongPressNext? && NotExpiredAfter(p, j + 1);
          } else {
            assert NotExpiredAfter(p, 0);
          }
        }
    }
  }

  /** A session that only navigates never touches the tooltip flag. */
  lemma NavigationKeepsTooltip(c: Carousel, es: seq<Event>)
    requires Valid(c)
    requires forall k :: 0 <= k < |es| ==> !IsTooltipEvent(es[k])
    ensures Run(c, es).showTooltip == c.showTooltip
  {
    RunTooltip(c, es);
    if c.showTooltip {
      assert NotExpiredAfter(es, 0);
    }
  }

  /** Long press: raises the tooltip, pressing again changes nothing, and the
      index is left alone. */
  lemma LongPressLaws(c: Carousel)
    ensures LongPress(c).showTooltip
    ensures LongPress(LongPress(c)) == LongPress(c)
    ensures LongPress(c).currentIndex == c.currentIndex
  {
  }

  /** Dismissal: hides the tooltip, dismissing again changes nothing, and the
      index is left alone. */
  lemma DismissLaws(c: Carousel)
    ensures !Dismiss(c).showTooltip
    ensures Dismiss(Dismiss(c)) == Dismiss(c)
    ensures Dismiss(c).currentIndex == c.currentIndex
  {
  }

  /** The tooltip and the index are independent: raising or dismissing the
      tooltip commutes with every navigation step. */
  lemma TooltipCommutesWithNavigation(c: Carousel, dragAmount: real)
    requires Valid(c)
    ensures Next(LongPress(c)) == LongPress(Next(c))
    ensures Previous(LongPress(c)) == LongPress(Previous(c))
    ensures Swipe(LongPress(c), dragAmount) == LongPress(Swipe(c, dragAmount))
    ensures Next(Dismiss(c)) == Dismiss(Next(c))
    ensures Previous(Dismiss(c)) == Dismiss(Previous(c))
    ensures Swipe(Dismiss(c), dragAmount) == Dismiss(Swipe(c, dragAmount))
  {
  }

  /** The screen's own gallery: it starts on the first artwork with the
      tooltip hidden; next visits the second, the third, then the first again,
      and previous from the start shows the third. */
  lemma ArtSpaceScenario()
    ensures Init(ArtSpaceArtworks()).currentIndex == 0
    ensures !Init(ArtSpaceArtworks()).showTooltip
    ensures Next(Init(ArtSpaceArtworks())).currentIndex == 1
    ensures Next(Next(Init(ArtSpaceArtworks()))).currentIndex == 2
    ensures Next(Next(Next(Init(ArtSpaceArtworks())))).currentIndex == 0
    ensures Previous(Init(ArtSpaceArtworks())).currentIndex == 2
    ensures CurrentArtwork(Previous(Init(ArtSpaceArtworks()))).title == "Whispers in the Forest"
    ensures Run(Init(ArtSpaceArtworks()), [NextClick, NextClick, NextClick, PreviousClick]).currentIndex == 2
  {
    assert Net([NextClick, NextClick, NextClick, PreviousClick]) == 2 by {
      var es := [NextClick, NextClick, NextClick, PreviousClick];
      assert es[..3] == [NextClick, NextClick, NextClick];
      assert es[..3][..2] == [NextClick, NextClick];
      assert es[..3][..2][..1] == [NextClick];
      assert Net([NextClick]) == 1 by { assert [NextClick][..0] == []; }
      assert Net([NextClick, NextClick]) == 2 by { assert [NextClick, NextClick][..1] == [NextClick]; }
      assert Net(es[..3]) == 3;
    }
  }
}

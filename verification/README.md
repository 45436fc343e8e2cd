# Art-space carousel controller

A Dafny model of the only stateful logic in the JetpackComposePlayground
repository: the artwork carousel of the art-space screen (`ArtSpaceApp.kt`).
The screen keeps a current index into a fixed, non-empty list of `Artwork`
records and a tooltip flag. "Next" and "Previous" buttons and horizontal
drags move the index with wraparound at both ends. A long press on "Next"
raises the tooltip, and a one-shot callback hides it again.

Files:

- `artwork.dfy` (module `Artwork`): the `Artwork` record and the screen's
  literal three-artwork gallery.
- `carousel.dfy` (module `Carousel`): the state (`Carousel`: list, index,
  tooltip flag), its invariant `Valid`, and one pure transition per user
  action.
- `cycle.dfy` (module `Cycle`): the navigation laws. It covers wraparound,
  next/previous as inverses, the `n`-step cycle and the one-artwork case.
- `session.dfy` (module `Session`): a session as a sequence of input events.
  It proves the invariant holds across any session and that the index and
  the tooltip flag evolve independently. It also replays the screen's own
  three-artwork scenario.
- `modarith.dfy` (module `ModArith`): facts about Euclidean `%` that the
  cycle laws need.

The index lambdas in the source use `if` expressions
(`if (currentIndex == size - 1) 0 else currentIndex + 1`). The model copies
them. Their contracts prove that, on valid indices, they agree with the
modular formulas `(i + 1) mod n` and `(i - 1 + n) mod n`.

## Model

All source cells refer to
`app/src/main/java/com/ahmaddudayef/jetpackcomposeplayground/artspaceapp/ArtSpaceApp.kt`.

| member | source | states |
|---|---|---|
| Carousel.Init | app/src/main/java/com/ahmaddudayef/jetpackcomposeplayground/artspaceapp/ArtSpaceApp.kt:45-56 | the screen starts on index 0 with the tooltip hidden, and that state satisfies the index invariant for any non-empty list |
| Carousel.CurrentArtwork | app/src/main/java/com/ahmaddudayef/jetpackcomposeplayground/artspaceapp/ArtSpaceApp.kt:53 | under the invariant, `artworks[currentIndex]` is a valid lookup and yields a member of the list |
| Carousel.NextIndex | app/src/main/java/com/ahmaddudayef/jetpackcomposeplayground/artspaceapp/ArtSpaceApp.kt:100-101 | the next-button index stays in `[0, n)` and equals the circular successor `(i + 1) mod n` |
| Carousel.PreviousIndex | app/src/main/java/com/ahmaddudayef/jetpackcomposeplayground/artspaceapp/ArtSpaceApp.kt:97-98 | the previous-button index stays in `[0, n)` and equals the circular predecessor `(i - 1 + n) mod n` |
| Carousel.Next | app/src/main/java/com/ahmaddudayef/jetpackcomposeplayground/artspaceapp/ArtSpaceApp.kt:100-101 | "Next" keeps the invariant, moves the index to `(i + 1) mod n`, and leaves the list and the tooltip flag unchanged |
| Carousel.Previous | app/src/main/java/com/ahmaddudayef/jetpackcomposeplayground/artspaceapp/ArtSpaceApp.kt:97-98 | "Previous" keeps the invariant, moves the index to `(i - 1 + n) mod n`, and leaves the list and the tooltip flag unchanged |
| Carousel.Swipe | app/src/main/java/com/ahmaddudayef/jetpackcomposeplayground/artspaceapp/ArtSpaceApp.kt:64-75 | a drag with positive amount is exactly "Previous"; any other amount, zero included, is exactly "Next" |
| Carousel.LongPress | app/src/main/java/com/ahmaddudayef/jetpackcomposeplayground/artspaceapp/ArtSpaceApp.kt:103-106 | a long press raises the tooltip and leaves the list and the index unchanged |
| Carousel.Dismiss | app/src/main/java/com/ahmaddudayef/jetpackcomposeplayground/artspaceapp/ArtSpaceApp.kt:110-113 | the dismiss callback hides the tooltip and leaves the list and the index unchanged |
| Cycle.WrapAround | app/src/main/java/com/ahmaddudayef/jetpackcomposeplayground/artspaceapp/ArtSpaceApp.kt:98-101 | next from the last index gives 0 and from any other index `i` gives `i + 1`; previous from 0 gives `n - 1` and from any other index `i` gives `i - 1` |
| Cycle.NextPreviousInverse | app/src/main/java/com/ahmaddudayef/jetpackcomposeplayground/artspaceapp/ArtSpaceApp.kt:97-101 | previous after next, and next after previous, return the original state for every list length |
| Cycle.SingleArtwork | app/src/main/java/com/ahmaddudayef/jetpackcomposeplayground/artspaceapp/ArtSpaceApp.kt:97-101 | next (and likewise previous) leaves a state unchanged if and only if the list has exactly one artwork |
| Cycle.NextTimes | app/src/main/java/com/ahmaddudayef/jetpackcomposeplayground/artspaceapp/ArtSpaceApp.kt:100-101 | pressing "Next" `k` times keeps the invariant and the tooltip flag and lands on `(i + k) mod n` |
| Cycle.PreviousTimes | app/src/main/java/com/ahmaddudayef/jetpackcomposeplayground/artspaceapp/ArtSpaceApp.kt:97-98 | pressing "Previous" `k` times keeps the invariant and the tooltip flag and lands on `(i - k) mod n` |
| Cycle.NextCycle | app/src/main/java/com/ahmaddudayef/jetpackcomposeplayground/artspaceapp/ArtSpaceApp.kt:100-101 | pressing "Next" exactly `n` times returns to the starting state |
| Cycle.PreviousCycle | app/src/main/java/com/ahmaddudayef/jetpackcomposeplayground/artspaceapp/ArtSpaceApp.kt:97-98 | pressing "Previous" exactly `n` times returns to the starting state |
| Session.Step | app/src/main/java/com/ahmaddudayef/jetpackcomposeplayground/artspaceapp/ArtSpaceApp.kt:64-113 | every input keeps the invariant; tooltip events never move the index, and navigation events never touch the tooltip flag |
| Session.Run | app/src/main/java/com/ahmaddudayef/jetpackcomposeplayground/artspaceapp/ArtSpaceApp.kt:52-113 | any sequence of inputs keeps the invariant and leaves the index at the start plus the net displacement of the navigation events, modulo `n` |
| Session.RunTooltip | app/src/main/java/com/ahmaddudayef/jetpackcomposeplayground/artspaceapp/ArtSpaceApp.kt:103-113 | after any sequence of inputs the tooltip is up if and only if some long press has not since been followed by an expiry, or it was up already and nothing expired it |
| Session.NavigationKeepsTooltip | app/src/main/java/com/ahmaddudayef/jetpackcomposeplayground/artspaceapp/ArtSpaceApp.kt:64-101 | a session of clicks and drags alone leaves the tooltip flag as it was |
| Session.LongPressLaws | app/src/main/java/com/ahmaddudayef/jetpackcomposeplayground/artspaceapp/ArtSpaceApp.kt:103-106 | a long press raises the tooltip, pressing again changes nothing, and the index is unchanged |
| Session.DismissLaws | app/src/main/java/com/ahmaddudayef/jetpackcomposeplayground/artspaceapp/ArtSpaceApp.kt:209-212 | the expiry hides the tooltip, a second expiry changes nothing, and the index is unchanged |
| Session.TooltipCommutesWithNavigation | app/src/main/java/com/ahmaddudayef/jetpackcomposeplayground/artspaceapp/ArtSpaceApp.kt:64-113 | raising or hiding the tooltip commutes with next, previous and every swipe |
| Session.ArtSpaceScenario | app/src/main/java/com/ahmaddudayef/jetpackcomposeplayground/artspaceapp/ArtSpaceApp.kt:45-56 | with the three literal artworks the screen starts at 0 with the tooltip hidden; next gives 1, then 2, then 0; previous from 0 gives 2, the forest artwork |

## Left out

- Rendering and layout: `ArtworkWall`, `ArtworkDescriptor`, the layout of `DisplayController`, `TooltipText`'s box and text, modifiers, scroll state and the preview. They hold no state to reason about.
- Gesture detection (`pointerInput`, `detectHorizontalDragGestures`, `detectTapGestures`). Only the resulting events are modelled.
- Carousel.Swipe: the drag amount is a Dafny `real`. A Kotlin `Float` can also be NaN or an infinity. The source sends NaN and negative infinity to "next" and positive infinity to "previous", and these values are not represented.
- The 2000 ms `delay` and the `LaunchedEffect` coroutine. Expiry is the explicit `TooltipExpired` event. Session.RunTooltip therefore does not say when expiry arrives. It also does not say that at most one expiry arrives per time the tooltip is shown. A long press while the tooltip is already up does not restart the timer in the source, which is consistent with the flag being idempotent here.
- Cancellation of the pending expiry when the screen is torn down. Teardown discards the whole state, so no model state is left to observe.
- `painterResource` and the drawable resource identifiers. `imageResId` is an opaque `int`. The three literal artworks get the placeholders 1, 2 and 3.
- Kotlin's 32-bit `Int`. The index never leaves `[0, n)`, so no index computation can overflow. `year` and `imageResId` are only carried, never computed with.
- `MainActivity.kt`, `superheroes/data/Hero.kt` and `topic/model/Topic.kt`. They are activity plumbing or plain resource-ID records with no operations.

# Feature carousel of the Rihla landing page, in Dafny

This project models the mobile feature carousel of the landing page's "Our Top 6 Features" section. It also proves properties of that model. The carousel shows one of six feature cards at a time. Three things change the card:

- arrow buttons and page dots;
- a swipe, which is interpreted from the drag's offset and release velocity;
- an autoplay interval that advances every 6000 ms.

The autoplay interval skips exactly one advance after any user interaction.

Modules, one per concept of the component:

- `Features`: the ordered list of six feature items, and their countdown rank labels (#6 … #1).
- `IndexMath`: JavaScript's truncating `%` and `wrapIndex = ((i % n) + n) % n`. It proves that the wrap equals the Euclidean remainder, for negative `i` as well.
- `Gesture`: the drag-release threshold test. It gives "next", "prev" or nothing.
- `CardVariants`: the enter, centre and exit poses that the direction selects.
- `Carousel`: the state `(index, direction, userInteracted)`, one pure function per handler, and `Step`/`Run` over event sequences.
- `Autoplay`: an abstract clock. A `World` adds the current time and the next tick's due time to the state. A user event that re-renders the component re-arms the interval for a full period. Waiting fires every tick that falls due.

Behaviours of the code worth knowing:

- The initial direction is 0 (line 124). The enter pose for direction 0 is the backward one (-300).
- A dot click passes its index through the wrap (line 133). An out-of-range index would wrap rather than be rejected.
- Clicking the active dot sets direction -1 and still sets the interaction flag (lines 257-258).
- A dot click can move several cards (`Carousel.DotClickJumpsSeveralCards`). Every other event moves at most one (`Carousel.AtMostOneCardPerEvent`).
- The interval restarts on every re-render, because the effect depends on `paginate`, which is recreated on each render (line 157). A re-render happens whenever the index or the direction changes. Clicking the active dot while the direction is already -1 changes neither, so it does not restart the timer.

## Model

| member | source | states |
|---|---|---|
| IndexMath.JsRem | src/components/ExclusiveFeaturesSection.jsx:130 | JavaScript's `%` for a positive divisor: the result lies strictly between -n and n and has the sign of the dividend |
| IndexMath.WrapIndex | src/components/ExclusiveFeaturesSection.jsx:130 | `wrapIndex` always yields an index in `[0, n)`, whatever the integer input |
| IndexMath.WrapIndexIsEuclideanMod | src/components/ExclusiveFeaturesSection.jsx:130 | for every integer i, negative ones included, `((i % n) + n) % n` with truncating `%` equals the Euclidean `i mod n`, so it is congruent to i |
| IndexMath.WrapIndexShift | src/components/ExclusiveFeaturesSection.jsx:130-136 | wrapping an intermediate index and then moving by d gives the same card as moving from the unwrapped index: `wrap(wrap(i) + d) == wrap(i + d)` |
| IndexMath.WrapIndexInRange | src/components/ExclusiveFeaturesSection.jsx:133 | an index already in range is left unchanged by the wrap |
| Features.RanksCountDown | src/components/ExclusiveFeaturesSection.jsx:13-56 | there are six items; the item at position i carries rank label `6 - i`, so ranks run #6 down to #1 in sequence order |
| Features.RanksAreDistinctKeys | src/components/ExclusiveFeaturesSection.jsx:13-56 | the rank labels used as the card's render key are distinct exactly when positions are distinct |
| Gesture.DragIntent | src/components/ExclusiveFeaturesSection.jsx:74-81 | a drag requests "next" exactly when offset < -80 or velocity < -500 (the leftward test wins); it requests nothing exactly when offset lies in `[-80, 80]` and velocity in `[-500, 500]`, boundaries included |
| Gesture.NextIsMonotone | src/components/ExclusiveFeaturesSection.jsx:76-77 | a sample further or faster to the left than one that asks for "next" also asks for "next" |
| Gesture.PrevIsMonotone | src/components/ExclusiveFeaturesSection.jsx:78-79 | a sample further or faster to the right than one that asks for "prev" also asks for "prev" |
| Gesture.MirrorSwapsRequests | src/components/ExclusiveFeaturesSection.jsx:76-80 | negating a sample swaps "next" and "prev" and keeps "nothing"; a sample with one component below -80 px or -500 px/s and the other above 80 px or 500 px/s asks for "next" both ways, because the leftward test comes first |
| Gesture.ThresholdExamples | src/components/ExclusiveFeaturesSection.jsx:76-80 | -81 px gives next, 81 px gives prev, a still release gives nothing, a -600 px/s flick gives next, and exactly ±80 px within ±500 px/s gives nothing |
| CardVariants.Enter | src/components/ExclusiveFeaturesSection.jsx:59-63 | the entering card starts 300 px to the side, on the right exactly when direction > 0 (so on the left for direction 0), faded out and at scale 0.96 |
| CardVariants.Center | src/components/ExclusiveFeaturesSection.jsx:64 | the resting card is at offset 0, fully opaque, at scale 1 |
| CardVariants.Exit | src/components/ExclusiveFeaturesSection.jsx:65-69 | for every direction the exit offset is the negation of the enter offset, with the same fade and scale |
| CardVariants.CardsTravelTogether | src/components/ExclusiveFeaturesSection.jsx:58-70 | the incoming and outgoing cards move the same way across the screen, by the full 300 px: leftward when moving forward, rightward otherwise; the initial direction 0 enters from -300 |
| Carousel.Paginate | src/components/ExclusiveFeaturesSection.jsx:131-134 | `paginate` sets the given direction and the in-range index congruent to the target, and leaves the interaction flag alone |
| Carousel.GoNext | src/components/ExclusiveFeaturesSection.jsx:135 | `next` gives index `(c + 1) mod 6` and direction 1, so the last card wraps to the first |
| Carousel.GoPrev | src/components/ExclusiveFeaturesSection.jsx:136 | `prev` gives index `(c - 1 + 6) mod 6` and direction -1, so the first card wraps to the last |
| Carousel.NextPrevInverse | src/components/ExclusiveFeaturesSection.jsx:135-136 | from any valid card, next then prev, or prev then next, returns to that card |
| Carousel.Navigate | src/components/ExclusiveFeaturesSection.jsx:138-145 | `handleDragRequest` and `handleArrowClick` set the interaction flag and move exactly one card in the requested direction |
| Carousel.DotClick | src/components/ExclusiveFeaturesSection.jsx:256-259 | a dot click sets the flag; an in-range dot becomes the index, any other wraps; direction is 1 only if the dot lies beyond the current card |
| Carousel.ActiveDotKeepsCard | src/components/ExclusiveFeaturesSection.jsx:251-258 | clicking the active dot keeps the card, turns the direction to -1 and sets the flag |
| Carousel.AutoplayTick | src/components/ExclusiveFeaturesSection.jsx:149-155 | with the flag clear a tick moves one card forward with direction 1; with it set the tick keeps index and direction; either way the flag ends clear |
| Carousel.DragRelease | src/components/ExclusiveFeaturesSection.jsx:74-81 | a drag with no intent leaves the whole state unchanged; a drag with intent sets the flag and moves one card the requested way, with direction 1 for next and -1 for prev |
| Carousel.Step | src/components/ExclusiveFeaturesSection.jsx:130-155 | every event keeps a valid state valid; a tick leaves the flag clear; any other event sets the flag or changes nothing |
| Carousel.Run | src/components/ExclusiveFeaturesSection.jsx:123-157 | any finite event sequence keeps a valid state valid |
| Carousel.ReachableStatesAreValid | src/components/ExclusiveFeaturesSection.jsx:123-133 | from mount, after any events, the index lies in `[0, 6)`, so the lookup `features[currentIndex]` never misses |
| Carousel.CurrentFeature | src/components/ExclusiveFeaturesSection.jsx:220-229 | the card shown for a valid state is one of the six features, and its rank label is `6 - index` |
| Carousel.FirstTickAfterInteractionIsSwallowed | src/components/ExclusiveFeaturesSection.jsx:149-155 | after any user navigation, the first tick keeps index and direction and clears the flag, and the second advances one card with direction 1 |
| Carousel.NonNavigationLeavesStateAlone | src/components/ExclusiveFeaturesSection.jsx:138-145 | a drag without intent changes nothing; every arrow, dot or intentful drag sets the flag |
| Carousel.AtMostOneCardPerEvent | src/components/ExclusiveFeaturesSection.jsx:131-155 | every event other than a dot click keeps the card, or moves one forward, or moves one back |
| Carousel.DotClickJumpsSeveralCards | src/components/ExclusiveFeaturesSection.jsx:256-259 | one dot click can move several cards at once: from card 0 to card 3 |
| Carousel.StepsOnlyRunIsNetDelta | src/components/ExclusiveFeaturesSection.jsx:130-145 | after any sequence of arrow clicks and drags the index is the start plus the net forward-minus-backward moves, mod 6 |
| Carousel.StepsFromMount | src/components/ExclusiveFeaturesSection.jsx:123-136 | from mount, arrows and drags alone leave the carousel on `((net % 6) + 6) % 6` |
| Autoplay.Deliver | src/components/ExclusiveFeaturesSection.jsx:147-157 | a user event (any event but the tick, which only the interval delivers) re-arms the interval one full period from now exactly when it changes index or direction; otherwise the due time stays |
| Autoplay.Elapse | src/components/ExclusiveFeaturesSection.jsx:147-157 | waiting advances the clock by the wait; the next tick ends up in the future, and for a well-timed world at most one period away; valid states stay valid; no tick fires before the due time |
| Autoplay.Apply | src/components/ExclusiveFeaturesSection.jsx:147-157 | any single wait or user event keeps the clock well-timed and the state valid |
| Autoplay.Feed | src/components/ExclusiveFeaturesSection.jsx:147-157 | any timed sequence of waits and user events keeps the clock well-timed and the state valid |
| Autoplay.ElapseComposes | src/components/ExclusiveFeaturesSection.jsx:149-155 | waiting a and then b milliseconds fires the same ticks as waiting a + b |
| Autoplay.NavigationRestartsTimer | src/components/ExclusiveFeaturesSection.jsx:147-148 | after a re-rendering user event the next tick is due exactly 6000 ms later, and any shorter wait changes nothing |
| Autoplay.SwallowedTickInTime | src/components/ExclusiveFeaturesSection.jsx:149-155 | after a re-rendering user navigation, the tick 6000 ms later only clears the flag (index and direction kept), and the tick 12000 ms later advances one card |
| Autoplay.ManualNavigationAtOneSecond | src/components/ExclusiveFeaturesSection.jsx:147-157 | an arrow click at t = 1000 ms moves the next tick to t = 7000 ms, and nothing changes before then |
| Autoplay.EndToEndScenario | src/components/ExclusiveFeaturesSection.jsx:123-157 | a -120 px swipe from mount gives card 1, forward, flag set; 6000 ms later, card 1 with the flag clear; 6000 ms after that, card 2 |
| Autoplay.UndisturbedAutoplay | src/components/ExclusiveFeaturesSection.jsx:147-157 | with no user events, after k periods from mount the carousel shows card `k mod 6` and the next tick is due at `(k + 1) * 6000` |

## Left out

- The desktop scroll-reveal mapping, in lines 120-121 and 184-213, is left out. Its opacity, scale and offset come from the animation library's scroll interpolation over floating-point numbers, and that library is not part of this model.
- Spring and animation parameters, `AnimatePresence`, images and JSX rendering are left out. They are presentation only. The card poses are modelled; the spring easing is not.
- `setInterval`/`clearInterval` and React's effect scheduling are replaced by the abstract due-time clock in `Autoplay`. The model assumes that a re-render happens exactly when index or direction changes. It treats the two state updates of one handler as one batched render.
- A drag released on the card that is still leaving is left out. With `mode="wait"` (line 218) the exiting card stays mounted during its exit animation. It keeps the `onDragRequest` of the render that created it (line 229), whose `next`/`prev` read that render's `currentIndex` (lines 135-136). Such a drag would move relative to the previous index: from index 0, a left swipe gives 1, and a right swipe on the leaving card would then give 5, where `Carousel.Step` gives 0. The model treats every drag as acting on the current index.
- Teardown is left out. The component clears the interval on unmount, and the model has no unmount event.
- Drag samples are `real` numbers. JavaScript's NaN and infinities are left out. With NaN every comparison fails, so a NaN sample would request nothing.
- `handleDragRequest` and `handleArrowClick` treat any value other than `"next"` as "prev". The model's `Nav` type has only the two values that the callers pass.
- Indices and times are unbounded integers. JavaScript numbers are doubles, but the values involved stay tiny.
- The `wrapIndex` model requires a positive item count. With zero items JavaScript would produce NaN. The item count here is the constant 6.
- `src/components/Navbar.jsx` and `src/components/ProblemSection.jsx` are left out. They are scroll listeners, a menu toggle and static cards with no carousel logic.

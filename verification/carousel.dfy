/**
 * The mobile feature carousel as a state machine: the current index, the
 * transition direction, and the one-shot "user interacted" flag that makes
 * the next autoplay tick skip its advance. Every event handler of the
 * component is a pure function from the state before to the state after.
 */
module Carousel {
  import opened IndexMath
  import opened Gesture
  import Features

  /** Number of cards, `features.length`. */
  const N: nat := Features.Count

  /** `index` is the current card, `direction` the last navigation's
      direction (1 forward, -1 backward, 0 before any navigation), and
      `userInteracted` the flag the next autoplay tick consumes. */
  datatype State = State(index: int, direction: int, userInteracted: bool)

  /** The state on mount: first card, no direction yet, no interaction. */
  const Init: State := State(0, 0, false)

  /** States the carousel can be in: a valid card and a known direction. */
  predicate Valid(s: State) {
    0 <= s.index < N && -1 <= s.direction <= 1
  }

  /** What happens to the carousel: a click on an arrow button, a click on
      the `idx`-th page dot, the release of a drag, or an autoplay tick. */
  datatype Event =
    | Arrow(nav: Nav)
    | Dot(idx: int)
    | DragEnd(offsetX: real, velocityX: real)
    | Tick

  /** `paginate`: commit a direction and the wrapped target index. The flag
      is not touched. The new index is the one in range congruent to the
      target. */
  function Paginate(s: State, target: int, dir: int): (r: State)
    ensures 0 <= r.index < N && r.index == target % N
    ensures r.direction == dir && r.userInteracted == s.userInteracted
  {
    WrapIndexIsEuclideanMod(target, N);
    s.(index := WrapIndex(target, N), direction := dir)
  }

  /** `next`: one card forward, wrapping from the last card to the first. */
  function GoNext(s: State): (r: State)
    ensures r.index == (s.index + 1) % N && r.direction == 1
    ensures r.userInteracted == s.userInteracted
    ensures s.index == N - 1 ==> r.index == 0
  {
    Paginate(s, s.index + 1, 1)
  }

  /** `prev`: one card back, wrapping from the first card to the last. */
  function GoPrev(s: State): (r: State)
    ensures r.index == (s.index - 1 + N) % N == (s.index - 1) % N && r.direction == -1
    ensures r.userInteracted == s.userInteracted
    ensures s.index == 0 ==> r.index == N - 1
  {
    assert (s.index - 1 + N) % N == (s.index - 1) % N by {
      ModOfSum(s.index - 1, N, N);
      ModUnique(N, N, 1, 0);
      ModOfSum(N, s.index - 1, N);
    }
    Paginate(s, s.index - 1, -1)
  }

  /** Stepping forward and then back (or back and then forward) returns to
      the card one started from. */
  lemma NextPrevInverse(s: State)
    requires Valid(s)
    ensures GoPrev(GoNext(s)).index == s.index
    ensures GoNext(GoPrev(s)).index == s.index
  {
    var i := s.index;
    ModUnique(i, N, 0, i);
    if i == N - 1 {
      ModUnique(i + 1, N, 1, 0);
      ModUnique(-1, N, -1, N - 1);
    } else {
      ModUnique(i + 1, N, 0, i + 1);
    }
    if i == 0 {
      ModUnique(-1, N, -1, N - 1);
      ModUnique(N, N, 1, 0);
    } else {
      ModUnique(i - 1, N, 0, i - 1);
    }
  }

  /** `handleDragRequest` and `handleArrowClick` (identical bodies): mark the
      user interaction, then navigate one card in the requested direction. */
  function Navigate(s: State, nav: Nav): (r: State)
    ensures r.userInteracted
    ensures nav == Next ==> r.index == (s.index + 1) % N && r.direction == 1
    ensures nav == Prev ==> r.index == (s.index - 1) % N && r.direction == -1
  {
    var marked := s.(userInteracted := true);
    if nav == Next then GoNext(marked) else GoPrev(marked)
  }

  /** The `onClick` of the `idx`-th dot: mark the interaction, jump to the
      wrapped `idx`, with direction 1 only when `idx` lies beyond the current
      card. An in-range `idx` is the new index; an out-of-range one wraps
      rather than being rejected. */
  function DotClick(s: State, idx: int): (r: State)
    ensures r.userInteracted
    ensures 0 <= idx < N ==> r.index == idx
    ensures r.index == idx % N
    ensures r.direction == (if idx > s.index then 1 else -1)
  {
    Paginate(s.(userInteracted := true), idx, if idx > s.index then 1 else -1)
  }

  /** Clicking the dot of the card already shown keeps the card but turns
      the direction backward and still counts as an interaction. */
  lemma ActiveDotKeepsCard(s: State)
    requires Valid(s)
    ensures DotClick(s, s.index) == State(s.index, -1, true)
  {
  }

  /** The body of the autoplay interval: with no pending interaction it
      moves one card forward; otherwise it only clears the flag. */
  function AutoplayTick(s: State): (r: State)
    ensures !r.userInteracted
    ensures s.userInteracted ==> r.index == s.index && r.direction == s.direction
    ensures !s.userInteracted ==> r.index == (s.index + 1) % N && r.direction == 1
  {
    if !s.userInteracted then GoNext(s) else s.(userInteracted := false)
  }

  /** A released drag: navigate as the gesture interpreter requests, or
      leave the state entirely alone when it requests nothing. */
  function DragRelease(s: State, offsetX: real, velocityX: real): (r: State)
    ensures DragIntent(offsetX, velocityX) == NoRequest ==> r == s
    ensures DragIntent(offsetX, velocityX) != NoRequest ==> r.userInteracted
    ensures DragIntent(offsetX, velocityX) == Request(Next) ==> r.index == (s.index + 1) % N && r.direction == 1
    ensures DragIntent(offsetX, velocityX) == Request(Prev) ==> r.index == (s.index - 1) % N && r.direction == -1
  {
    match DragIntent(offsetX, velocityX)
    case Request(nav) => Navigate(s, nav)
    case NoRequest => s
  }

  /** One event. From a valid state every event leads to a valid state. */
  function Step(s: State, e: Event): (r: State)
    ensures Valid(s) ==> Valid(r)
    ensures e.Tick? ==> !r.userInteracted
    ensures !e.Tick? ==> (r.userInteracted || r == s)
  {
    match e
    case Arrow(nav) => Navigate(s, nav)
    case Dot(idx) => DotClick(s, idx)
    case DragEnd(offsetX, velocityX) => DragRelease(s, offsetX, velocityX)
    case Tick => AutoplayTick(s)
  }

  /** A sequence of events, applied in order. */
  function Run(s: State, events: seq<Event>): (r: State)
    ensures Valid(s) ==> Valid(r)
    decreases |events|
  {
    if events == [] then s else Run(Step(s, events[0]), events[1..])
  }

  /** Whatever happens after mount, the index stays a valid position in the
      feature list, so the card lookup by `currentIndex` never misses. */
  lemma ReachableStatesAreValid(events: seq<Event>)
    ensures Valid(Run(Init, events))
    ensures 0 <= Run(Init, events).index < |Features.Items|
  {
  }

  /** The feature shown for a valid state; its rank label is `N - index`. */
  function CurrentFeature(s: State): (f: Features.FeatureItem)
    requires Valid(s)
    ensures f in Features.Items
    ensures f.rank == N - s.index
  {
    Features.RanksCountDown();
    Features.Items[s.index]
  }

  /** Whether the event is a user navigation: an arrow, a dot, or a drag
      whose sample requests a card. */
  predicate IsUserNavigation(e: Event) {
    match e
    case Arrow(_) => true
    case Dot(_) => true
    case DragEnd(offsetX, velocityX) => DragIntent(offsetX, velocityX) != NoRequest
    case Tick => false
  }

  /** The first tick after a user navigation is swallowed: it keeps index
      and direction and clears the flag. The second tick advances one card
      forward with direction 1. */
  lemma FirstTickAfterInteractionIsSwallowed(s: State, e: Event)
    requires IsUserNavigation(e)
    ensures var s1 := Step(s, e);
            var s2 := Step(s1, Tick);
            var s3 := Step(s2, Tick);
            s1.userInteracted
            && s2.index == s1.index && s2.direction == s1.direction && !s2.userInteracted
            && s3.index == (s1.index + 1) % N && s3.direction == 1 && !s3.userInteracted
  {
  }

  /** A drag with no intent changes nothing; every other non-tick event
      marks the interaction. */
  lemma NonNavigationLeavesStateAlone(s: State, e: Event)
    requires !e.Tick?
    ensures !IsUserNavigation(e) ==> Step(s, e) == s
    ensures IsUserNavigation(e) ==> Step(s, e).userInteracted
  {
  }

  /** Every event except a dot click moves at most one card: the index stays,
      or moves one forward, or one back (modulo N). */
  lemma AtMostOneCardPerEvent(s: State, e: Event)
    requires Valid(s) && !e.Dot?
    ensures var i := Step(s, e).index;
            i == s.index || i == (s.index + 1) % N || i == (s.index - 1) % N
  {
  }

  /** A dot click is the exception: from the first card, one click on the
      fourth dot moves three cards at once. */
  lemma DotClickJumpsSeveralCards()
    ensures Step(Init, Dot(3)).index == 3
    ensures Step(Init, Dot(3)).index - Init.index > 1
  {
  }

  /** Signed number of cards a user arrow or drag event moves. */
  function Delta(e: Event): int {
    match e
    case Arrow(Next) => 1
    case Arrow(Prev) => -1
    case DragEnd(offsetX, velocityX) =>
      (match DragIntent(offsetX, velocityX)
       case Request(Next) => 1
       case Request(Prev) => -1
       case NoRequest => 0)
    case _ => 0
  }

  /** Net forward-minus-backward moves of a sequence of events. */
  function NetDelta(events: seq<Event>): int
    decreases |events|
  {
    if events == [] then 0 else Delta(events[0]) + NetDelta(events[1..])
  }

  /** The event sequence consists of arrow clicks and drags only. */
  predicate StepsOnly(events: seq<Event>) {
    forall i :: 0 <= i < |events| ==> events[i].Arrow? || events[i].DragEnd?
  }

  /** A single arrow click or drag moves the index by its `Delta`. */
  lemma StepMovesByDelta(s: State, e: Event)
    requires Valid(s) && (e.Arrow? || e.DragEnd?)
    ensures Step(s, e).index == (s.index + Delta(e)) % N
  {
    if Delta(e) == 0 {
      ModUnique(s.index, N, 0, s.index);
    }
  }

  /** Any sequence of arrow clicks and drags ends on the card reached by
      moving the net number of steps from the start, wrapped into range. */
  lemma {:induction false} StepsOnlyRunIsNetDelta(s: State, events: seq<Event>)
    requires Valid(s) && StepsOnly(events)
    ensures Run(s, events).index == (s.index + NetDelta(events)) % N
    decreases |events|
  {
    if events == [] {
      ModUnique(s.index, N, 0, s.index);
    } else {
      var e, rest := events[0], events[1..];
      var s1 := Step(s, e);
      StepsOnlyTail(events);
      StepMovesByDelta(s, e);
      StepsOnlyRunIsNetDelta(s1, rest);
      ChainMoves(s.index, Delta(e), NetDelta(rest), s1.index, Run(s1, rest).index);
    }
  }

  /** Unfolds one event off the front of a run and of its net delta. */
  lemma StepsOnlyTail(events: seq<Event>)
    requires StepsOnly(events) && events != []
    ensures StepsOnly(events[1..])
    ensures NetDelta(events) == Delta(events[0]) + NetDelta(events[1..])
    ensures forall s :: Run(s, events) == Run(Step(s, events[0]), events[1..])
  {
    forall i | 0 <= i < |events[1..]|
      ensures events[1..][i].Arrow? || events[1..][i].DragEnd?
    {
      assert events[1..][i] == events[i + 1];
    }
  }

  /** Moving by `d` and then by `rest`, wrapping after each, is moving by
      `d + rest` and wrapping once. */
  lemma ChainMoves(a: int, d: int, rest: int, x: int, y: int)
    requires x == (a + d) % N && y == (x + rest) % N
    ensures y == (a + (d + rest)) % N
  {
    ModOfSum(a + d, rest, N);
    assert a + d + rest == a + (d + rest);
  }

  /** From mount, arrows and drags alone leave the carousel on
      `((net % N) + N) % N`: the net count of moves, wrapped. */
  lemma StepsFromMount(events: seq<Event>)
    requires StepsOnly(events)
    ensures Run(Init, events).index == WrapIndex(NetDelta(events), N)
  {
    StepsOnlyRunIsNetDelta(Init, events);
    WrapIndexIsEuclideanMod(NetDelta(events), N);
  }
}

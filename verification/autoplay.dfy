/**
 * Autoplay timing, modelled abstractly. The component runs one periodic
 * 6000 ms interval whose body is `Carousel.AutoplayTick`. The effect that
 * arms it depends on `currentIndex` and on `paginate`, a function the
 * component recreates on every render, so the interval is cleared and
 * re-armed on every re-render, that is, whenever the index or the direction
 * changes. A change of the interaction flag alone causes no re-render.
 *
 * A `World` is the carousel state, the current time in milliseconds since
 * mount, and the time at which the interval fires next.
 */
module Autoplay {
  import opened IndexMath
  import opened Carousel

  /** The autoplay period in milliseconds (`autoplayDelayMs`). */
  const Delay: nat := 6000

  datatype World = World(s: State, now: int, deadline: int)

  /** The events a user can cause: everything except the autoplay tick,
      which only the interval delivers. */
  type UserEvent = e: Event | !e.Tick? witness Arrow(Gesture.Next)

  /** What the environment does: let time pass, or deliver a user event. */
  datatype Input = Wait(ms: nat) | Act(e: UserEvent)

  /** On mount, at time 0, the interval is armed for time 6000. */
  const Mount: World := World(Init, 0, Delay)

  /** The next tick lies in the future, at most one period away. */
  predicate WellTimed(w: World) {
    w.now < w.deadline <= w.now + Delay
  }

  /** The render-relevant part of the state changed, so the component
      re-renders and its effect re-arms the interval. */
  predicate Rerenders(before: State, after: State) {
    before.index != after.index || before.direction != after.direction
  }

  /** A user event at the current time. The interval restarts, one full
      period from now, exactly when the event re-renders the component. */
  function Deliver(w: World, e: UserEvent): (r: World)
    ensures r.s == Step(w.s, e) && r.now == w.now
    ensures Rerenders(w.s, r.s) ==> r.deadline == w.now + Delay
    ensures !Rerenders(w.s, r.s) ==> r.deadline == w.deadline
  {
    var s' := Step(w.s, e);
    World(s', w.now, if Rerenders(w.s, s') then w.now + Delay else w.deadline)
  }

  /** Let `ms` milliseconds pass, firing every tick that falls due on the
      way. A tick at time `t` always leaves the next one at `t + Delay`:
      either the interval was re-armed by the re-render at `t`, or nothing
      re-rendered and the periodic interval simply keeps its cadence. */
  function Elapse(w: World, ms: nat): (r: World)
    ensures r.now == w.now + ms
    ensures r.deadline > r.now
    ensures WellTimed(w) ==> WellTimed(r)
    ensures Valid(w.s) ==> Valid(r.s)
    ensures w.deadline > w.now + ms ==> r == World(w.s, w.now + ms, w.deadline)
    decreases w.now + ms - w.deadline + Delay
  {
    if w.deadline <= w.now + ms then
      Elapse(World(AutoplayTick(w.s), w.deadline, w.deadline + Delay), w.now + ms - w.deadline)
    else
      World(w.s, w.now + ms, w.deadline)
  }

  /** One input. */
  function Apply(w: World, i: Input): (r: World)
    ensures WellTimed(w) ==> WellTimed(r)
    ensures Valid(w.s) ==> Valid(r.s)
  {
    match i
    case Wait(ms) => Elapse(w, ms)
    case Act(e) => Deliver(w, e)
  }

  /** A sequence of inputs, applied in order. */
  function Feed(w: World, inputs: seq<Input>): (r: World)
    ensures WellTimed(w) ==> WellTimed(r)
    ensures Valid(w.s) ==> Valid(r.s)
    decreases |inputs|
  {
    if inputs == [] then w else Feed(Apply(w, inputs[0]), inputs[1..])
  }

  /** Waiting `a` and then `b` milliseconds is the same as waiting `a + b`:
      the ticks that fall due are the same and fire in the same order. */
  lemma {:induction false} ElapseComposes(w: World, a: nat, b: nat)
    ensures Elapse(Elapse(w, a), b) == Elapse(w, a + b)
    decreases w.now + a - w.deadline + Delay
  {
    if w.deadline <= w.now + a {
      ElapseComposes(World(AutoplayTick(w.s), w.deadline, w.deadline + Delay), w.now + a - w.deadline, b);
    }
  }

  /** After a user event that re-renders, no tick fires for a full period:
      any wait shorter than 6000 ms leaves the state as the event left it,
      and the next tick is due exactly 6000 ms after the event. */
  lemma NavigationRestartsTimer(w: World, e: UserEvent, ms: nat)
    requires Rerenders(w.s, Step(w.s, e)) && ms < Delay
    ensures Deliver(w, e).deadline == w.now + Delay
    ensures Elapse(Deliver(w, e), ms).s == Step(w.s, e)
  {
  }

  /** After a user navigation that re-renders, the tick one period later is
      swallowed (only the flag changes, to clear) and the tick two periods
      later advances one card. */
  lemma {:induction false} SwallowedTickInTime(w: World, e: UserEvent)
    requires IsUserNavigation(e) && Rerenders(w.s, Step(w.s, e))
    ensures var w1 := Deliver(w, e);
            var w2 := Elapse(w1, Delay);
            var w3 := Elapse(w2, Delay);
            w2.s == w1.s.(userInteracted := false)
            && w3.s.index == (w1.s.index + 1) % N && w3.s.direction == 1
  {
    var w1 := Deliver(w, e);
    assert w1.s.userInteracted;
    var w2 := Elapse(w1, Delay);
    assert w2 == World(AutoplayTick(w1.s), w1.now + Delay, w1.now + 2 * Delay);
    var w3 := Elapse(w2, Delay);
    assert w3 == World(AutoplayTick(w2.s), w2.now + Delay, w2.now + 2 * Delay);
  }

  /** A manual navigation at t = 1000 ms moves the next autoplay boundary to
      t = 7000 ms, not 6000 ms. */
  lemma ManualNavigationAtOneSecond()
    ensures var w := Deliver(Elapse(Mount, 1000), Arrow(Gesture.Next));
            w.now == 1000 && w.deadline == 7000 && w.s.index == 1
            && Elapse(w, 5999).s == w.s
            && Elapse(w, 6000).s.index == 1 && !Elapse(w, 6000).s.userInteracted
  {
  }

  /** Six items, index 0 on mount; a left swipe of 120 px moves to card 1
      forward with the flag set; 6000 ms later the tick only clears the flag;
      6000 ms after that the tick moves on to card 2. */
  lemma EndToEndScenario()
    ensures var w1 := Deliver(Mount, DragEnd(-120.0, 0.0));
            var w2 := Elapse(w1, 6000);
            var w3 := Elapse(w2, 6000);
            w1.s == State(1, 1, true)
            && w2.s == State(1, 1, false)
            && w3.s == State(2, 1, false)
  {
  }

  /** Without user events the carousel advances one card every period:
      after `k` undisturbed periods from mount it shows card `k mod N`. */
  lemma {:induction false} UndisturbedAutoplay(k: nat)
    ensures Elapse(Mount, k * Delay) == World(State(k % N, if k == 0 then 0 else 1, false), k * Delay, (k + 1) * Delay)
  {
    if k > 0 {
      UndisturbedAutoplay(k - 1);
      ElapseComposes(Mount, (k - 1) * Delay, Delay);
      ModOfSum(k - 1, 1, N);
    }
  }
}

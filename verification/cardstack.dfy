/** The card-stack component (mobile/src/components/organisms/CardStack.tsx):
    a cursor over the people it was given and an `animating` flag. A released
    drag or a button press commits a decision, which raises the flag; when the
    fly-off animation completes the side-effect callback runs under `safeCall`
    and the cursor advances, whatever the callback did. */
module CardStack {

  import opened Wrappers
  import opened Seqs
  import opened QueryCache
  import SwipeGesture

  /** The component state: `index` into the data and the `animating` flag. */
  datatype Stack = Stack(index: nat, animating: bool)

  datatype Direction = Left | Right

  /** The cursor never passes the end of the data. */
  predicate Valid(s: Stack, n: nat) {
    s.index <= n
  }

  function Initial(): (s: Stack)
    ensures forall n: nat :: Valid(s, n)
    ensures !s.animating
  {
    Stack(0, false)
  }

  /** The release decision on drag distance alone, with strict bounds. */
  function Decide(dx: real, threshold: real): (d: Option<Direction>)
    ensures d == Some(Right) <==> dx > threshold
    ensures d == Some(Left) <==> dx < -threshold && !(dx > threshold)
    ensures d.None? <==> -threshold <= dx <= threshold
  {
    if dx > threshold then Some(Right)
    else if dx < -threshold then Some(Left)
    else None
  }

  /** The completion callback a committed decision leaves behind: which side
      effect to run and the person that was in play when it was committed. */
  datatype Pending = Pending(direction: Direction, person: Option<Person>)

  datatype Committed = Committed(stack: Stack, pending: Option<Pending>)

  /** `onPanResponderRelease`: ignored while animating; a drag past the
      threshold commits a decision and raises `animating`; anything shorter
      snaps back and changes nothing. */
  function OnRelease(s: Stack, data: seq<Person>, dx: real, threshold: real): (r: Committed)
    ensures s.animating ==> r == Committed(s, None)
    ensures !s.animating && -threshold <= dx <= threshold ==> r == Committed(s, None)
    ensures !s.animating && dx > threshold ==>
      r == Committed(s.(animating := true), Some(Pending(Right, At(data, s.index))))
    ensures !s.animating && dx < -threshold && !(dx > threshold) ==>
      r == Committed(s.(animating := true), Some(Pending(Left, At(data, s.index))))
  {
    if s.animating then Committed(s, None)
    else match Decide(dx, threshold)
      case Some(d) => Committed(s.(animating := true), Some(Pending(d, At(data, s.index))))
      case None => Committed(s, None)
  }

  /** `programmaticSwipe`: does nothing without a card in play or while
      animating; otherwise commits the requested decision. */
  function ProgrammaticSwipe(s: Stack, data: seq<Person>, direction: Direction): (r: Committed)
    ensures At(data, s.index).None? || s.animating ==> r == Committed(s, None)
    ensures At(data, s.index).Some? && !s.animating ==>
      && r.stack == Stack(s.index, true)
      && r.pending == Some(Pending(direction, Some(data[s.index])))
  {
    if At(data, s.index).None? || s.animating then Committed(s, None)
    else Committed(s.(animating := true), Some(Pending(direction, At(data, s.index))))
  }

  /** `advance`: the cursor moves one step but never past the end, and the
      animation is over. A cursor already past the end (the list shrank under
      it) is pulled back to the end. */
  function Advance(s: Stack, n: nat): (r: Stack)
    ensures Valid(r, n)
    ensures !r.animating
    ensures r.index == if s.index < n then s.index + 1 else n
  {
    Stack(if s.index + 1 < n then s.index + 1 else n, false)
  }

  /** Whether a callback returned or threw. */
  datatype CallOutcome = Returned | Threw

  /** What calling a side effect did: whether the callback was invoked, and
      whether an exception escaped to the caller. */
  datatype Call = Call(invoked: bool, escaped: bool)

  /** `if (fn && p) await fn(p)` without a surrounding `try`: the callback runs
      only when both it and the person are defined, and a throw escapes. */
  function CallUnguarded(hasCallback: bool, person: Option<Person>, outcome: CallOutcome): (c: Call)
    ensures c.invoked <==> hasCallback && person.Some?
    ensures c.escaped <==> c.invoked && outcome.Threw?
  {
    var invoked := hasCallback && person.Some?;
    Call(invoked, invoked && outcome.Threw?)
  }

  /** `safeCall`: the same guarded call inside `try`/`catch`, so a throw is
      swallowed and never reaches the caller. */
  function SafeCall(hasCallback: bool, person: Option<Person>, outcome: CallOutcome): (c: Call)
    ensures c.invoked == CallUnguarded(hasCallback, person, outcome).invoked
    ensures c.invoked <==> hasCallback && person.Some?
    ensures !c.escaped
  {
    var attempt := CallUnguarded(hasCallback, person, outcome);
    if attempt.escaped then Call(attempt.invoked, false) else attempt
  }

  /** Which of the component's callbacks were provided. `onLike` and `onNope`
      are required props, but `safeCall` still guards them. */
  datatype Handlers = Handlers(hasLike: bool, hasNope: bool, hasReset: bool)

  datatype Completed = Completed(stack: Stack, invoked: bool)

  /** The rest of an animation-completion callback once the side effect has
      been awaited: `advance()` runs only if nothing escaped; an escaped
      exception rejects the callback and leaves the stack as it was. */
  function AfterCall(s: Stack, n: nat, call: Call): (r: Completed)
    ensures !call.escaped ==> r.stack == Advance(s, n)
    ensures call.escaped ==> r.stack == s
    ensures r.invoked == call.invoked
  {
    Completed(if call.escaped then s else Advance(s, n), call.invoked)
  }

  /** The animation-completion callback of a committed decision: run the side
      effect through `safeCall`, then advance. */
  function Complete(s: Stack, n: nat, pending: Pending, handlers: Handlers, outcome: CallOutcome): (r: Completed)
    ensures r.stack == Advance(s, n)
    ensures r.invoked <==>
      pending.person.Some?
      && (if pending.direction == Right then handlers.hasLike else handlers.hasNope)
  {
    var hasCallback := if pending.direction == Right then handlers.hasLike else handlers.hasNope;
    AfterCall(s, n, SafeCall(hasCallback, pending.person, outcome))
  }

  /** Without the catch in `safeCall`, a throwing like callback would leave the
      stack animating on the same card, and every later release would be
      ignored: the catch is what keeps the stack moving. */
  lemma UnguardedThrowFreezesStack(s: Stack, n: nat, p: Person)
    requires s.animating
    ensures var r := AfterCall(s, n, CallUnguarded(true, Some(p), Threw));
      r.stack == s && r.stack.animating
    ensures AfterCall(s, n, SafeCall(true, Some(p), Threw)).stack == Advance(s, n)
  {
  }

  datatype ResetDone = ResetDone(stack: Stack, resetCalls: nat)

  /** `reset`: back to the first card, not animating, and `onReset` called
      once when it was provided. */
  function Reset(handlers: Handlers): (r: ResetDone)
    ensures r.stack == Initial()
    ensures r.resetCalls == if handlers.hasReset then 1 else 0
  {
    ResetDone(Stack(0, false), if handlers.hasReset then 1 else 0)
  }

  /** Whatever the side effect does, a decision is followed by exactly one
      advance: the state after completion does not depend on the outcome. */
  lemma FailureDoesNotBlockAdvance(s: Stack, n: nat, pending: Pending, handlers: Handlers)
    ensures Complete(s, n, pending, handlers, Threw) == Complete(s, n, pending, handlers, Returned)
  {
  }

  /** From an idle state with a card in play, a drag past the threshold and
      the completion of its animation hand that card to the like callback and
      move to the next card with the animation over. */
  lemma LikeGestureRoundTrip(s: Stack, data: seq<Person>, dx: real, threshold: real, handlers: Handlers, outcome: CallOutcome)
    requires !s.animating && s.index < |data|
    requires dx > threshold
    ensures var c := OnRelease(s, data, dx, threshold);
      && c.pending == Some(Pending(Right, Some(data[s.index])))
      && Complete(c.stack, |data|, c.pending.value, handlers, outcome)
         == Completed(Stack(s.index + 1, false), handlers.hasLike)
  {
  }

  /** Everything that can happen to the component. `Finished` is the completion
      of a fly-off animation started by an earlier decision. */
  datatype Event =
    | Released(dx: real)
    | Pressed(direction: Direction)
    | Finished(pending: Pending, outcome: CallOutcome)
    | ResetPressed

  /** One event. A drag can only be released on the top card, which is
      rendered only while a card is in play. */
  function Step(s: Stack, data: seq<Person>, threshold: real, handlers: Handlers, e: Event): Stack {
    match e
    case Released(dx) =>
      if At(data, s.index).None? then s else OnRelease(s, data, dx, threshold).stack
    case Pressed(d) => ProgrammaticSwipe(s, data, d).stack
    case Finished(p, o) => Complete(s, |data|, p, handlers, o).stack
    case ResetPressed => Reset(handlers).stack
  }

  function Run(s: Stack, data: seq<Person>, threshold: real, handlers: Handlers, events: seq<Event>): Stack
    decreases |events|
  {
    if |events| == 0 then s
    else Run(Step(s, data, threshold, handlers, events[0]), data, threshold, handlers, events[1..])
  }

  /** `0 <= index <= |data|` holds after any sequence of events, including
      resets and completions arriving in any order. */
  lemma {:induction false} RunKeepsValid(s: Stack, data: seq<Person>, threshold: real, handlers: Handlers, events: seq<Event>)
    requires Valid(s, |data|)
    ensures Valid(Run(s, data, threshold, handlers, events), |data|)
    decreases |events|
  {
    if |events| > 0 {
      var next := Step(s, data, threshold, handlers, events[0]);
      assert Valid(next, |data|);
      RunKeepsValid(next, data, threshold, handlers, events[1..]);
    }
  }

  /** With no fly-off velocity involved, the stack's decision agrees with the
      swipe card's rule: a slow release decides the same way on both. */
  lemma AgreesWithSwipeCard(dx: real, vx: real, threshold: real)
    requires -SwipeGesture.VelocityThreshold <= vx <= SwipeGesture.VelocityThreshold
    ensures Decide(dx, threshold) == Some(Right) <==> SwipeGesture.Decide(dx, vx, threshold) == SwipeGesture.SwipeRight
    ensures Decide(dx, threshold) == Some(Left) <==> SwipeGesture.Decide(dx, vx, threshold) == SwipeGesture.SwipeLeft
    ensures Decide(dx, threshold).None? <==> SwipeGesture.Decide(dx, vx, threshold) == SwipeGesture.SnapBack
  {
  }
}

/** The swipe screen (mobile/src/screens/SwipeScreen.tsx): a page number and a
    cursor into the people of that page. Liking or passing on the card in play
    issues the matching mutation and then advances, whether or not the
    mutation succeeded; advancing near or past the end of the page moves to
    the next page. The deck shown is whatever the page's query currently
    holds, so every event carries the deck it acts on. */
module SwipeDeck {

  import opened Wrappers
  import opened Seqs
  import opened QueryCache
  import SwipeGesture

  /** People requested per page. */
  const PerPage: int := 10

  /** Advancing to within this many cards of the end requests the next page. */
  const PrefetchMargin: int := 2

  datatype Deck = Deck(page: int, index: nat)

  /** The first page, first card: whatever the first page holds, its first
      person (if any) is in play. */
  function Start(): (s: Deck)
    ensures s.page == 1
    ensures forall deck: seq<Person> :: At(deck, s.index) == (if |deck| == 0 then None else Some(deck[0]))
  {
    Deck(1, 0)
  }

  /** The people on screen: the page's data, or nothing while it is absent. */
  function DeckOf(data: Option<seq<Person>>): (deck: seq<Person>)
    ensures data.None? ==> deck == []
    ensures data.Some? ==> deck == data.value
  {
    data.GetOr([])
  }

  /** The card shown underneath, `deck[index + 1]`: absent exactly when the
      card in play is the last one or there is none. */
  function Next(deck: seq<Person>, index: nat): (p: Option<Person>)
    ensures p.None? <==> index + 1 >= |deck|
    ensures p.Some? ==> p.value == deck[index + 1] && At(deck, index).Some?
  {
    At(deck, index + 1)
  }

  /** `advance`: within the deck the cursor moves on, and the page moves on too
      once the cursor comes within the prefetch margin of the end; past the
      end the next page starts at its first card. */
  function Advance(s: Deck, len: nat): (r: Deck)
    ensures s.index + 1 < len ==> r.index == s.index + 1
    ensures s.index + 1 < len ==> (r.page == s.page + 1 <==> s.index + 1 >= len - PrefetchMargin)
    ensures s.index + 1 >= len ==> r == Deck(s.page + 1, 0)
    ensures s.page <= r.page <= s.page + 1
  {
    var nextIndex := s.index + 1;
    if nextIndex < len then
      Deck(if nextIndex >= len - PrefetchMargin then s.page + 1 else s.page, nextIndex)
    else
      Deck(s.page + 1, 0)
  }

  datatype Choice = LikeChoice | NopeChoice

  /** The server call a choice issues: like takes the whole person, dislike
      only the id. */
  datatype Mutation = LikeCall(person: Person) | DislikeCall(id: int)

  datatype Feedback = LikedBanner | NopeBanner | ResetBanner

  /** The outcome of one screen event. */
  datatype Step = Step(deck: Deck, mutation: Option<Mutation>, banner: Option<Feedback>, refetch: bool)

  function MutationFor(choice: Choice, p: Person): Mutation {
    match choice
    case LikeChoice => LikeCall(p)
    case NopeChoice => DislikeCall(p.id)
  }

  function BannerFor(choice: Choice): Feedback {
    match choice
    case LikeChoice => LikedBanner
    case NopeChoice => NopeBanner
  }

  /** `onLike` / `onNope` with the server's verdict as input: without a card in
      play nothing happens; otherwise the mutation for that card is issued,
      the banner appears only if it succeeded, and the deck advances once in
      either case (`try`/`finally`). */
  function OnChoice(s: Deck, deck: seq<Person>, choice: Choice, serverOk: bool): (r: Step)
    ensures At(deck, s.index).None? ==> r == Step(s, None, None, false)
    ensures At(deck, s.index).Some? ==>
      && r.deck == Advance(s, |deck|)
      && r.mutation == Some(MutationFor(choice, deck[s.index]))
      && (r.banner.Some? <==> serverOk)
      && !r.refetch
  {
    match At(deck, s.index)
    case None => Step(s, None, None, false)
    case Some(p) =>
      Step(Advance(s, |deck|), Some(MutationFor(choice, p)), if serverOk then Some(BannerFor(choice)) else None, false)
  }

  /** `onReset`: back to the first card of the same page, with a refetch. */
  function OnReset(s: Deck): (r: Step)
    ensures r.deck.index == 0 && r.deck.page == s.page
    ensures r.mutation.None? && r.refetch
  {
    Step(Deck(s.page, 0), None, Some(ResetBanner), true)
  }

  /** The "Load More" button: the first card of the next page. */
  function LoadMore(s: Deck): (r: Deck)
    ensures r.page == s.page + 1 && r.index == 0
  {
    Deck(s.page + 1, 0)
  }

  /** Whether the server accepts or rejects the mutation, the screen ends up
      on the same card: a failure never stalls the deck. */
  lemma AdvanceIgnoresServer(s: Deck, deck: seq<Person>, choice: Choice)
    ensures OnChoice(s, deck, choice, true).deck == OnChoice(s, deck, choice, false).deck
    ensures OnChoice(s, deck, choice, true).mutation == OnChoice(s, deck, choice, false).mutation
  {
  }

  /** Advancing within the page without reaching the prefetch margin brings
      the card shown underneath into play. */
  lemma AdvanceBringsNextIntoPlay(s: Deck, deck: seq<Person>)
    requires s.index + 1 < |deck| - PrefetchMargin
    ensures Advance(s, |deck|).page == s.page
    ensures At(deck, Advance(s, |deck|).index) == Next(deck, s.index)
  {
  }

  /** The events of the screen, each with the deck on screen when it happens. */
  datatype Event =
    | Chose(choice: Choice, deck: seq<Person>, serverOk: bool)
    | ResetPressed
    | LoadMorePressed

  function StepDeck(s: Deck, e: Event): Deck {
    match e
    case Chose(c, deck, ok) => OnChoice(s, deck, c, ok).deck
    case ResetPressed => OnReset(s).deck
    case LoadMorePressed => LoadMore(s)
  }

  function Run(s: Deck, events: seq<Event>): Deck
    decreases |events|
  {
    if |events| == 0 then s else Run(StepDeck(s, events[0]), events[1..])
  }

  /** The page never goes back, and each event moves it forward by at most one. */
  lemma {:induction false} PageMonotone(s: Deck, events: seq<Event>)
    ensures s.page <= Run(s, events).page <= s.page + |events|
    decreases |events|
  {
    if |events| > 0 {
      var next := StepDeck(s, events[0]);
      assert s.page <= next.page <= s.page + 1;
      PageMonotone(next, events[1..]);
    }
  }

  /** From the start, the screen is never on a page before the first, and
      after `n` events it is on page `n + 1` at the latest. */
  lemma {:induction false} PagesFromStart(events: seq<Event>)
    ensures 1 <= Run(Start(), events).page <= |events| + 1
  {
    PageMonotone(Start(), events);
  }

  /** A released drag on the front card: the card's swipe rule picks like,
      pass or snap back; the back card and an empty deck take no gesture. */
  function OnCardRelease(s: Deck, deck: seq<Person>, dx: real, vx: real, threshold: real, serverOk: bool): (r: Step)
    ensures SwipeGesture.Decide(dx, vx, threshold).SnapBack? ==> r == Step(s, None, None, false)
    ensures SwipeGesture.Decide(dx, vx, threshold).SwipeRight? ==> r == OnChoice(s, deck, LikeChoice, serverOk)
    ensures SwipeGesture.Decide(dx, vx, threshold).SwipeLeft? ==> r == OnChoice(s, deck, NopeChoice, serverOk)
  {
    if At(deck, s.index).None? then Step(s, None, None, false)
    else
      var fired := SwipeGesture.OnRelease(SwipeGesture.Front, dx, vx, threshold, SwipeGesture.Callbacks(true, true));
      match fired
      case Some(SwipeRight) => OnChoice(s, deck, LikeChoice, serverOk)
      case Some(SwipeLeft) => OnChoice(s, deck, NopeChoice, serverOk)
      case _ => Step(s, None, None, false)
  }

  /** A release short of both thresholds changes nothing and calls nothing. */
  lemma SnapBackIsInert(s: Deck, deck: seq<Person>, dx: real, vx: real, threshold: real, serverOk: bool)
    requires -threshold <= dx <= threshold
    requires -SwipeGesture.VelocityThreshold <= vx <= SwipeGesture.VelocityThreshold
    ensures OnCardRelease(s, deck, dx, vx, threshold, serverOk) == Step(s, None, None, false)
  {
  }
}

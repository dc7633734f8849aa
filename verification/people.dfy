/** The people endpoints of the backend (backend/app/Http/Controllers/PersonController.php)
    as pure functions over an explicit store: the people table, the likes
    table in insertion order and the set of dislikes. The authenticated user
    and the current time are parameters; pagination is not modelled, so the
    listings return the effective page size next to the full ordered result. */
module PeopleApi {

  import opened Wrappers
  import opened Seqs

  type UserId = int
  type PersonId = int

  /** Seconds since the epoch. */
  type Timestamp = int

  /** A row of the people table with its photo URLs in display order. */
  datatype PersonRow = PersonRow(
    id: PersonId,
    name: string,
    age: int,
    location: string,
    likeCount: int,
    updatedAt: Option<Timestamp>,
    photos: seq<string>)

  /** A row of the likes table. */
  datatype LikeRow = LikeRow(user: UserId, person: PersonId, createdAt: Timestamp)

  datatype Store = Store(
    people: seq<PersonRow>,
    likes: seq<LikeRow>,
    dislikes: set<(UserId, PersonId)>)

  const DefaultPerPage: int := 10
  const MaxPerPage: int := 50
  const DefaultLikedPerPage: int := 20

  const StatusOk: int := 200
  const StatusNotFound: int := 404

  /** Primary keys are unique. */
  predicate UniqueIds(people: seq<PersonRow>) {
    KeysDistinct(people, IdKey)
  }

  function IdKey(p: PersonRow): int {
    p.id
  }

  /** `Person::find($id)`: the row with that id, if any. */
  function Find(people: seq<PersonRow>, id: PersonId): (r: Option<PersonRow>)
    ensures r.Some? ==> r.value in people && r.value.id == id
    ensures r.None? <==> forall k :: 0 <= k < |people| ==> people[k].id != id
  {
    if |people| == 0 then None
    else if people[0].id == id then Some(people[0])
    else Find(people[1..], id)
  }

  /** The (user, person) pairs present in the likes table. */
  function LikePairs(likes: seq<LikeRow>): set<(UserId, PersonId)> {
    set l | l in likes :: (l.user, l.person)
  }

  predicate HasLike(likes: seq<LikeRow>, user: UserId, id: PersonId) {
    (user, id) in LikePairs(likes)
  }

  /** The effective page size of the recommendation listing: the requested
      value (10 by default) capped at 50. */
  function ListingPerPage(requested: Option<int>): (n: int)
    ensures n <= MaxPerPage
    ensures n <= requested.GetOr(DefaultPerPage)
    ensures n == requested.GetOr(DefaultPerPage) || n == MaxPerPage
  {
    var asked := requested.GetOr(DefaultPerPage);
    if asked < MaxPerPage then asked else MaxPerPage
  }

  /** People the user has neither liked nor disliked. */
  function Unseen(s: Store, user: UserId): PersonRow -> bool {
    (p: PersonRow) => !HasLike(s.likes, user, p.id) && (user, p.id) !in s.dislikes
  }

  datatype Listing = Listing(perPage: int, people: seq<PersonRow>)

  /** `index`: the people the user has neither liked nor disliked, highest id
      first. */
  function Index(s: Store, user: UserId, requested: Option<int>): (r: Listing)
    ensures r.perPage == ListingPerPage(requested)
    ensures forall p :: p in r.people <==>
      p in s.people && !HasLike(s.likes, user, p.id) && (user, p.id) !in s.dislikes
    ensures NonIncreasing(r.people, IdKey)
    ensures multiset(r.people) <= multiset(s.people)
  {
    var unseen := Filter(s.people, Unseen(s, user));
    var ordered := SortDesc(unseen, IdKey);
    assert forall p :: p in ordered <==> p in unseen by {
      forall p ensures p in ordered <==> p in unseen {
        assert p in ordered <==> p in multiset(ordered);
        assert p in unseen <==> p in multiset(unseen);
      }
    }
    Listing(ListingPerPage(requested), ordered)
  }

  /** With unique ids the listing is strictly ordered by id, so it is the only
      descending arrangement of the people it lists. */
  lemma {:induction false} IndexStrictlyDescending(s: Store, user: UserId, requested: Option<int>)
    requires UniqueIds(s.people)
    ensures Decreasing(Index(s, user, requested).people, IdKey)
    ensures forall ys :: Decreasing(ys, IdKey) && multiset(ys) == multiset(Index(s, user, requested).people) ==>
      ys == Index(s, user, requested).people
  {
    var r := Index(s, user, requested).people;
    SubMultisetKeysDistinct(s.people, r, IdKey);
    NonIncreasingDistinctIsDecreasing(r, IdKey);
    forall ys | Decreasing(ys, IdKey) && multiset(ys) == multiset(r)
      ensures ys == r
    {
      DecreasingUnique(ys, r, IdKey);
    }
  }

  datatype Response = Response(status: int, store: Store)

  /** The person row after a like: one more like, and `updated_at` touched. */
  function WithOneMoreLike(p: PersonRow, now: Timestamp): PersonRow {
    p.(likeCount := p.likeCount + 1, updatedAt := Some(now))
  }

  /** Every row with the id gets the like; other rows stay as they are. */
  function IncrementLikes(people: seq<PersonRow>, id: PersonId, now: Timestamp): (r: seq<PersonRow>)
    ensures |r| == |people|
    ensures forall k :: 0 <= k < |people| && people[k].id == id ==> r[k] == WithOneMoreLike(people[k], now)
    ensures forall k :: 0 <= k < |people| && people[k].id != id ==> r[k] == people[k]
  {
    if |people| == 0 then []
    else
      var head := if people[0].id == id then WithOneMoreLike(people[0], now) else people[0];
      [head] + IncrementLikes(people[1..], id, now)
  }

  /** `like`: 404 and no change for an unknown id; otherwise, in one step,
      record the like unless it is already recorded, and add one to the
      person's like count even when it was. */
  function Like(s: Store, user: UserId, id: PersonId, now: Timestamp): (r: Response)
    ensures Find(s.people, id).None? ==> r == Response(StatusNotFound, s)
    ensures Find(s.people, id).Some? ==>
      && r.status == StatusOk
      && LikePairs(r.store.likes) == LikePairs(s.likes) + {(user, id)}
      && r.store.dislikes == s.dislikes
      && Find(r.store.people, id) == Some(WithOneMoreLike(Find(s.people, id).value, now))
      && |r.store.people| == |s.people|
    ensures Find(s.people, id).Some? && HasLike(s.likes, user, id) ==> r.store.likes == s.likes
    ensures Find(s.people, id).Some? && !HasLike(s.likes, user, id) ==>
      r.store.likes == s.likes + [LikeRow(user, id, now)]
    ensures forall other :: other != id ==> Find(r.store.people, other) == Find(s.people, other)
  {
    if Find(s.people, id).None? then Response(StatusNotFound, s)
    else
      var likes :=
        if HasLike(s.likes, user, id) then s.likes else s.likes + [LikeRow(user, id, now)];
      assert LikePairs(likes) == LikePairs(s.likes) + {(user, id)} by {
        if !HasLike(s.likes, user, id) {
          assert LikeRow(user, id, now) in likes;
        }
      }
      var people := IncrementLikes(s.people, id, now);
      FindAfterIncrement(s.people, id, now);
      Response(StatusOk, Store(people, likes, s.dislikes))
  }

  /** Looking a row up after the increment finds the incremented row for the
      liked id and the unchanged row for any other. */
  lemma {:induction false} FindAfterIncrement(people: seq<PersonRow>, id: PersonId, now: Timestamp)
    ensures Find(people, id).Some? ==>
      Find(IncrementLikes(people, id, now), id) == Some(WithOneMoreLike(Find(people, id).value, now))
    ensures forall other :: other != id ==> Find(IncrementLikes(people, id, now), other) == Find(people, other)
    decreases |people|
  {
    if |people| > 0 {
      FindAfterIncrement(people[1..], id, now);
      assert IncrementLikes(people, id, now)[1..] == IncrementLikes(people[1..], id, now);
    }
  }

  /** Liking twice records one like but counts two. */
  lemma RepeatedLike(s: Store, user: UserId, id: PersonId, t1: Timestamp, t2: Timestamp)
    requires Find(s.people, id).Some?
    ensures var once := Like(s, user, id, t1).store;
      var twice := Like(once, user, id, t2).store;
      && twice.likes == once.likes
      && LikePairs(twice.likes) == LikePairs(s.likes) + {(user, id)}
      && Find(twice.people, id).value.likeCount == Find(s.people, id).value.likeCount + 2
  {
    var once := Like(s, user, id, t1).store;
    assert HasLike(once.likes, user, id);
  }

  /** `dislike`: 404 and no change for an unknown id; otherwise the dislike is
      recorded (once) and nothing else changes, like counts included. */
  function Dislike(s: Store, user: UserId, id: PersonId): (r: Response)
    ensures Find(s.people, id).None? ==> r == Response(StatusNotFound, s)
    ensures Find(s.people, id).Some? ==>
      && r.status == StatusOk
      && r.store.dislikes == s.dislikes + {(user, id)}
      && r.store.people == s.people
      && r.store.likes == s.likes
  {
    if Find(s.people, id).None? then Response(StatusNotFound, s)
    else Response(StatusOk, s.(dislikes := s.dislikes + {(user, id)}))
  }

  /** Disliking is idempotent. */
  lemma DislikeIdempotent(s: Store, user: UserId, id: PersonId)
    ensures Dislike(Dislike(s, user, id).store, user, id) == Dislike(s, user, id)
  {
  }

  /** A liked or disliked person drops out of the user's listing. */
  lemma DecidedPersonLeavesListing(s: Store, user: UserId, id: PersonId, now: Timestamp, like: bool, requested: Option<int>)
    ensures var after := if like then Like(s, user, id, now).store else Dislike(s, user, id).store;
      forall p :: p in Index(after, user, requested).people ==> p.id != id || Find(s.people, id).None?
  {
  }

  /** A row of the liked-by-me listing, as the endpoint shapes it. */
  datatype LikedRow = LikedRow(
    id: PersonId,
    name: string,
    age: int,
    location: string,
    pictures: seq<string>,
    likeCount: int)

  function Shape(p: PersonRow): LikedRow {
    LikedRow(p.id, p.name, p.age, p.location, p.photos, p.likeCount)
  }

  function ByUser(user: UserId): LikeRow -> bool {
    (l: LikeRow) => l.user == user
  }

  function CreatedKey(l: LikeRow): int {
    l.createdAt
  }

  /** The user's likes, newest first. */
  function UserLikesNewestFirst(s: Store, user: UserId): (r: seq<LikeRow>)
    ensures NonIncreasing(r, CreatedKey)
    ensures forall l :: l in r <==> l in s.likes && l.user == user
    ensures multiset(r) == multiset(Filter(s.likes, ByUser(user)))
  {
    SortDesc(Filter(s.likes, ByUser(user)), CreatedKey)
  }

  /** The join of likes with people, in the order of the likes; a like whose
      person is gone yields no row. */
  function JoinPeople(likes: seq<LikeRow>, people: seq<PersonRow>): (rows: seq<LikedRow>)
    ensures |rows| <= |likes|
    ensures forall k :: 0 <= k < |rows| ==> exists l :: l in likes && l.person == rows[k].id
    ensures (forall l :: l in likes ==> Find(people, l.person).Some?) ==>
      |rows| == |likes| && forall k :: 0 <= k < |rows| ==> rows[k] == Shape(Find(people, likes[k].person).value)
  {
    if |likes| == 0 then []
    else
      var rest := JoinPeople(likes[1..], people);
      assert forall l :: l in likes[1..] ==> l in likes;
      match Find(people, likes[0].person)
      case None => rest
      case Some(p) => [Shape(p)] + rest
  }

  datatype LikedPage = LikedPage(perPage: int, rows: seq<LikedRow>)

  /** `likedByMe`: the people the user liked, newest like first, shaped for the
      client; the page size is the requested one (20 by default), uncapped. */
  function LikedByMe(s: Store, user: UserId, requested: Option<int>): (r: LikedPage)
    ensures r.perPage == requested.GetOr(DefaultLikedPerPage)
    ensures forall k :: 0 <= k < |r.rows| ==> HasLike(s.likes, user, r.rows[k].id)
    ensures |r.rows| <= |UserLikesNewestFirst(s, user)|
  {
    var likes := UserLikesNewestFirst(s, user);
    var rows := JoinPeople(likes, s.people);
    assert forall k :: 0 <= k < |rows| ==> HasLike(s.likes, user, rows[k].id) by {
      forall k | 0 <= k < |rows|
        ensures HasLike(s.likes, user, rows[k].id)
      {
        var l :| l in likes && l.person == rows[k].id;
        assert (l.user, l.person) in LikePairs(s.likes);
      }
    }
    LikedPage(requested.GetOr(DefaultLikedPerPage), rows)
  }

  /** When every like refers to an existing person, the listing has one row
      per like of the user, in newest-first order of the likes. */
  lemma LikedByMeFollowsLikes(s: Store, user: UserId, requested: Option<int>)
    requires forall l :: l in s.likes ==> Find(s.people, l.person).Some?
    ensures var likes := UserLikesNewestFirst(s, user);
      var rows := LikedByMe(s, user, requested).rows;
      && |rows| == |likes|
      && forall k :: 0 <= k < |rows| ==> rows[k].id == likes[k].person
  {
  }
}

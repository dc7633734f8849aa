/** The client-side query cache as the mobile data hooks use it
    (mobile/src/api/hooks.ts): the optimistic like with its rollback, the
    dislike confirmed by the server, the liked-list retry rule and the
    response unwrapping. The cache is an explicit value mapping query keys to
    the person lists they hold; invalidation appears as the set of query
    families the flow marks stale. */
module QueryCache {

  import opened Wrappers
  import opened Seqs

  /** A person as the client holds it. The client reads `like_count`, which may
      be absent (the hooks treat a missing count as 0). */
  datatype Person = Person(
    id: int,
    name: string,
    age: int,
    location: string,
    pictures: seq<string>,
    likeCount: Option<int>)

  /** The query keys the hooks use: `['liked']` and `['people', page, perPage]`. */
  datatype QueryKey = LikedKey | PeopleKey(page: int, perPage: int)

  /** The query families a flow asks to invalidate (`invalidateQueries` on a key prefix). */
  datatype QueryFamily = LikedFamily | PeopleFamily

  /** Keys whose queries hold data. A key with no data is simply absent. */
  type Cache = map<QueryKey, seq<Person>>

  /** The liked list as the hooks read it: `getQueryData(['liked']) ?? []`. */
  function Liked(c: Cache): seq<Person> {
    if LikedKey in c then c[LikedKey] else []
  }

  predicate HasId(xs: seq<Person>, id: int) {
    exists i :: 0 <= i < |xs| && xs[i].id == id
  }

  function IdOf(p: Person): int {
    p.id
  }

  /** No id occurs twice. */
  predicate UniqueIds(xs: seq<Person>) {
    KeysDistinct(xs, IdOf)
  }

  /** The optimistic liked list: `person` in front unless its id is already
      listed, in which case the list is left exactly as it was. */
  function AddLiked(liked: seq<Person>, person: Person): (r: seq<Person>)
    ensures HasId(r, person.id)
    ensures HasId(liked, person.id) ==> r == liked
    ensures !HasId(liked, person.id) ==> r == [person] + liked
    ensures UniqueIds(liked) ==> UniqueIds(r)
  {
    if HasId(liked, person.id) then liked
    else
      var r := [person] + liked;
      assert r[0].id == person.id;
      r
  }

  /** Adding a person whose id is already liked changes nothing, so the
      optimistic insert is idempotent by id. */
  lemma AddLikedIdempotent(liked: seq<Person>, person: Person, again: Person)
    requires again.id == person.id
    ensures AddLiked(AddLiked(liked, person), again) == AddLiked(liked, person)
  {
  }

  /** One entry of a people page after the optimistic bump. */
  function Bumped(p: Person, id: int): Person {
    if p.id == id then p.(likeCount := Some(p.likeCount.GetOr(0) + 1)) else p
  }

  /** A people page with the like count of every entry for `id` raised by one. */
  function BumpPage(page: seq<Person>, id: int): (r: seq<Person>)
    ensures |r| == |page|
    ensures forall i :: 0 <= i < |page| && page[i].id == id ==>
      r[i] == page[i].(likeCount := Some(page[i].likeCount.GetOr(0) + 1))
    ensures forall i :: 0 <= i < |page| && page[i].id != id ==> r[i] == page[i]
  {
    if |page| == 0 then []
    else [Bumped(page[0], id)] + BumpPage(page[1..], id)
  }

  /** Every cached people page with data gets its entries for `id` bumped;
      the liked entry and the set of keys holding data are untouched. */
  function BumpPeoplePages(c: Cache, id: int): (r: Cache)
    ensures r.Keys == c.Keys
    ensures forall k :: k in c && k.PeopleKey? ==> r[k] == BumpPage(c[k], id)
    ensures forall k :: k in c && !k.PeopleKey? ==> r[k] == c[k]
  {
    map k | k in c :: if k.PeopleKey? then BumpPage(c[k], id) else c[k]
  }

  /** The snapshot `onMutate` hands to `onError`. */
  datatype LikeContext = LikeContext(prevLiked: seq<Person>)

  datatype Mutated = Mutated(cache: Cache, context: LikeContext)

  /** `useLike().onMutate`: snapshot the liked list, add the person to it,
      bump the person's like count on every cached people page. */
  function OnMutateLike(c: Cache, person: Person): (r: Mutated)
    ensures r.context.prevLiked == Liked(c)
    ensures LikedKey in r.cache
    ensures Liked(r.cache) == AddLiked(Liked(c), person)
    ensures forall k :: k in r.cache <==> k in c || k == LikedKey
    ensures forall k :: k in c && k.PeopleKey? ==> r.cache[k] == BumpPage(c[k], person.id)
  {
    var prevLiked := Liked(c);
    var withLiked :=
      if HasId(prevLiked, person.id) then c else c[LikedKey := [person] + prevLiked];
    Mutated(BumpPeoplePages(withLiked, person.id), LikeContext(prevLiked))
  }

  /** `useLike().onError`: put the liked snapshot back. People pages keep
      their bumped counts. */
  function OnErrorLike(c: Cache, context: LikeContext): (r: Cache)
    ensures Liked(r) == context.prevLiked
    ensures forall k :: k != LikedKey ==> (k in r <==> k in c)
    ensures forall k :: k in c && k != LikedKey ==> r[k] == c[k]
  {
    c[LikedKey := context.prevLiked]
  }

  /** The cache after a like flow and the query families it invalidates. */
  datatype Settled = Settled(cache: Cache, invalidated: set<QueryFamily>)

  /** The whole like flow with the server's verdict as input: on success both
      families are invalidated (after a short delay that the model drops); on
      failure the liked list is rolled back and nothing is invalidated. Either
      way every cached people page keeps the optimistic like-count bump. */
  function LikeFlow(c: Cache, person: Person, serverOk: bool): (r: Settled)
    ensures serverOk ==> Liked(r.cache) == AddLiked(Liked(c), person)
    ensures forall k :: k in r.cache <==> k in c || k == LikedKey
    ensures forall k :: k in c && k.PeopleKey? ==> r.cache[k] == BumpPage(c[k], person.id)
    ensures serverOk ==> r.invalidated == {LikedFamily, PeopleFamily}
    ensures !serverOk ==> r.invalidated == {}
  {
    var m := OnMutateLike(c, person);
    if serverOk then Settled(m.cache, {LikedFamily, PeopleFamily})
    else Settled(OnErrorLike(m.cache, m.context), {})
  }

  /** A failed like restores the liked list to the snapshot exactly (an empty
      list when there was none) while the people-page bumps stay in place. */
  lemma {:induction false} FailedLikeRollsBackOnlyLiked(c: Cache, person: Person)
    ensures var r := LikeFlow(c, person, false);
      && LikedKey in r.cache
      && r.cache[LikedKey] == Liked(c)
      && (forall k :: k in r.cache <==> k in c || k == LikedKey)
      && (forall k :: k in c && k.PeopleKey? ==> r.cache[k] == BumpPage(c[k], person.id))
  {
    var m := OnMutateLike(c, person);
    assert LikeFlow(c, person, false).cache == m.cache[LikedKey := Liked(c)];
  }

  /** A successful like leaves the person's id in the liked list exactly once,
      given that the list had no repeated ids. */
  lemma LikedOnceAfterLike(c: Cache, person: Person)
    requires UniqueIds(Liked(c))
    ensures var liked := Liked(LikeFlow(c, person, true).cache);
      HasId(liked, person.id) && UniqueIds(liked)
  {
  }

  /** A predicate keeping the people whose id differs from `id`. */
  function NotId(id: int): Person -> bool {
    (p: Person) => p.id != id
  }

  /** `useDislike`: nothing changes before the server answers; on success the
      liked list keeps, in order, exactly the entries with another id, and the
      people pages are invalidated. A failure leaves the cache alone. */
  function DislikeFlow(c: Cache, id: int, serverOk: bool): (r: Settled)
    ensures !serverOk ==> r == Settled(c, {})
    ensures serverOk ==> LikedKey in r.cache && r.invalidated == {PeopleFamily}
    ensures serverOk ==> !HasId(Liked(r.cache), id)
    ensures serverOk ==> Liked(r.cache) == Filter(Liked(c), NotId(id))
    ensures serverOk ==> forall p :: p in Liked(r.cache) <==> p in Liked(c) && p.id != id
    ensures forall k :: k != LikedKey ==> (k in r.cache <==> k in c)
    ensures forall k :: k in c && k != LikedKey ==> r.cache[k] == c[k]
  {
    if serverOk then
      var kept := Filter(Liked(c), NotId(id));
      assert forall i :: 0 <= i < |kept| ==> kept[i] in kept;
      Settled(c[LikedKey := kept], {PeopleFamily})
    else Settled(c, {})
  }

  /** Liking a person not yet liked and then disliking them, both confirmed,
      gives back the liked list the cache started with. */
  lemma DislikeUndoesLike(c: Cache, person: Person)
    requires !HasId(Liked(c), person.id)
    ensures Liked(DislikeFlow(LikeFlow(c, person, true).cache, person.id, true).cache) == Liked(c)
  {
    var liked := Liked(c);
    assert Liked(LikeFlow(c, person, true).cache) == [person] + liked;
    assert forall p :: p in liked ==> NotId(person.id)(p);
    FilterKeepsAll(liked, NotId(person.id));
    FilterAppend([person], liked, NotId(person.id));
    assert Filter([person], NotId(person.id)) == [];
  }

  /** The liked-list query's error as the retry rule sees it: the HTTP status
      of the response, if there was one. */
  datatype FetchError = FetchError(status: Option<int>)

  const Unauthorized: int := 401

  /** Failures (counted from 0) below this bound are retried. */
  const RetryBound: int := 2

  /** The liked-list `retry` option: never retry a 401, otherwise retry while
      fewer than two failures have been counted. */
  predicate ShouldRetry(failCount: int, error: FetchError): (retry: bool)
    ensures error.status == Some(Unauthorized) ==> !retry
    ensures failCount >= RetryBound ==> !retry
    ensures error.status != Some(Unauthorized) && failCount < RetryBound ==> retry
  {
    if error.status == Some(Unauthorized) then false else failCount < RetryBound
  }

  /** The liked-list fetch under the retry rule. `outcomes[n]` is the result of
      attempt `n` (`None` for success, `Some(e)` for a failure); the retryer
      passes the number of failures seen before the current one, starting at 0. */
  method FetchLiked(outcomes: seq<Option<FetchError>>) returns (attempts: nat, ok: bool)
    requires |outcomes| >= RetryBound + 1
    ensures 1 <= attempts <= RetryBound + 1
    ensures ok <==> outcomes[attempts - 1].None?
    ensures forall n :: 0 <= n < attempts - 1 ==>
      outcomes[n].Some? && ShouldRetry(n, outcomes[n].value)
    ensures outcomes[0] == Some(FetchError(Some(Unauthorized))) ==> attempts == 1 && !ok
    ensures !ok ==> !ShouldRetry(attempts - 1, outcomes[attempts - 1].value)
  {
    attempts := 0;
    ok := false;
    var stop := false;
    while !stop
      invariant 0 <= attempts <= RetryBound + 1
      invariant !stop ==> attempts <= RetryBound
      invariant var retried := if stop then attempts - 1 else attempts;
        forall n :: 0 <= n < retried ==> outcomes[n].Some? && ShouldRetry(n, outcomes[n].value)
      invariant !stop ==> !ok
      invariant stop ==> 1 <= attempts
      invariant stop ==> (ok <==> outcomes[attempts - 1].None?)
      invariant stop && !ok ==> !ShouldRetry(attempts - 1, outcomes[attempts - 1].value)
      decreases RetryBound + 1 - attempts, !stop
    {
      var result := outcomes[attempts];
      if result.None? {
        ok := true;
        stop := true;
        attempts := attempts + 1;
      } else if ShouldRetry(attempts, result.value) {
        attempts := attempts + 1;
      } else {
        stop := true;
        attempts := attempts + 1;
      }
    }
  }

  /** The JSON shapes a response body can take. */
  datatype Json =
    | JNull
    | JNumber(n: int)
    | JString(s: string)
    | JArray(items: seq<Json>)
    | JObject(fields: map<string, Json>)

  /** `data?.data ?? data` on a response body (`None` for `undefined`): the
      body's `data` field when the body is an object whose `data` is present
      and not null, otherwise the body itself. */
  function Unwrap(body: Option<Json>): (r: Option<Json>)
    ensures body.Some? && body.value.JObject? && "data" in body.value.fields
            && body.value.fields["data"] != JNull ==>
      r == Some(body.value.fields["data"])
    ensures !(body.Some? && body.value.JObject? && "data" in body.value.fields
              && body.value.fields["data"] != JNull) ==>
      r == body
  {
    match body
    case Some(JObject(fields)) =>
      if "data" in fields && fields["data"] != JNull then Some(fields["data"]) else body
    case _ => body
  }

  /** Both response shapes unwrap to the list of people: any object carrying
      the list under `data`, whatever else it holds (the resource collection's
      `links` and `meta`, the paginator's page fields), and a bare array. */
  lemma UnwrapEnvelopeOrBare(fields: map<string, Json>, items: seq<Json>)
    requires "data" in fields && fields["data"] == JArray(items)
    ensures Unwrap(Some(JObject(fields))) == Some(JArray(items))
    ensures Unwrap(Some(JArray(items))) == Some(JArray(items))
  {
  }
}

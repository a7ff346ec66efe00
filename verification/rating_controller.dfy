/** `POST api/Rating/{ideaId}?value=`: the range gate in front of the rating
    service, and the mapping of its outcome onto a response. The caller's
    identity name is the rating's user id; the service runs against the store. */
module RatingController {
  import opened Wrappers
  import opened Keys
  import opened Persistence
  import opened Http
  import opened Claims
  import opened Time
  import opened Bytes
  import opened CallerIdentity
  import RatingService
  import JwtService

  const OutOfRangeMessage: string := "Rating must be between 1 and 5."
  const RatedMessage: string := "Idea rated successfully."

  /** The response and the store the request leaves behind. */
  function RateIdea(s: Store, ideaId: Guid, value: int, userId: UserId, newId: Guid): (r: (Response, Store))
    ensures r.0.status in {StatusOk, StatusBadRequest}
    ensures r.0.status == StatusOk <==> 1 <= value <= 5 && RatingService.RateIdea(s, ideaId, value, userId, newId).Success?
    ensures r.0.status == StatusOk ==>
      r.0.body == MessageObject(RatedMessage) && r.1 == RatingService.RateIdea(s, ideaId, value, userId, newId).value
    ensures r.0.status != StatusOk ==> r.1 == s
    ensures (value < 1 || value > 5) ==> r.0.body == MessageObject(OutOfRangeMessage)
    ensures 1 <= value <= 5 && RatingService.RateIdea(s, ideaId, value, userId, newId).Failure? ==>
      r.0.body == MessageObject(Message(RatingService.RateIdea(s, ideaId, value, userId, newId).error))
  {
    if value < 1 || value > 5 then (Response(StatusBadRequest, MessageObject(OutOfRangeMessage)), s)
    else
      match RatingService.RateIdea(s, ideaId, value, userId, newId)
      case Success(t) => (Response(StatusOk, MessageObject(RatedMessage)), t)
      case Failure(e) => (Response(StatusBadRequest, MessageObject(Message(e))), s)
  }

  /** A 200 means exactly one rating with the requested value was stored, and nothing else changed. */
  lemma OkStoresOneRating(s: Store, ideaId: Guid, value: int, userId: UserId, newId: Guid)
    requires RateIdea(s, ideaId, value, userId, newId).0.status == StatusOk
    ensures var t := RateIdea(s, ideaId, value, userId, newId).1;
      && newId !in s.ratings
      && t.ratings == s.ratings[newId := Rating(value, ideaId, userId)]
      && t == s.(ratings := t.ratings)
      && MinRatingValue <= value <= MaxRatingValue
  {
  }

  /** Any response other than 200 leaves the store as it was. */
  lemma RejectionLeavesStore(s: Store, ideaId: Guid, value: int, userId: UserId, newId: Guid)
    ensures RateIdea(s, ideaId, value, userId, newId).0.status != StatusOk ==>
      RateIdea(s, ideaId, value, userId, newId).1 == s
    ensures RateIdea(s, ideaId, value, userId, newId).0.status in {StatusOk, StatusBadRequest}
  {
  }

  /** The endpoint keeps every declared constraint of the store. */
  lemma RateIdeaPreservesValid(s: Store, ideaId: Guid, value: int, userId: UserId, newId: Guid)
    requires Valid(s)
    ensures Valid(RateIdea(s, ideaId, value, userId, newId).1)
  {
  }

  /** Both ends of 1..5 are accepted: on a valid store, with a fresh id, existing
      idea and user rows, and no earlier rating by this user, the answer is 200. */
  lemma RangeIsInclusive(s: Store, ideaId: Guid, value: int, userId: UserId, newId: Guid)
    requires Valid(s) && !RatingService.HasRated(s, ideaId, userId)
    requires newId !in s.ratings && ideaId in s.ideas && userId in s.users
    requires value == 1 || value == 5
    ensures RateIdea(s, ideaId, value, userId, newId).0 == Response(StatusOk, MessageObject(RatedMessage))
  {
    RatingService.AddRatingSucceedsIff(s, ideaId, value, userId, newId, RatingService.DuplicateRatingMessage);
  }

  /** A second rating of the same idea by the same user is answered 400 with the service's message. */
  lemma SecondRatingRefused(s: Store, ideaId: Guid, value: int, value2: int, userId: UserId, newId: Guid, newId2: Guid)
    requires RateIdea(s, ideaId, value, userId, newId).0.status == StatusOk
    requires 1 <= value2 <= 5
    ensures var t := RateIdea(s, ideaId, value, userId, newId).1;
      RateIdea(t, ideaId, value2, userId, newId2)
        == (Response(StatusBadRequest, MessageObject(RatingService.DuplicateRatingMessage)), t)
  {
    RatingService.RateTwiceFails(s, ideaId, value, value2, userId, newId, newId2);
  }

  // ---------------- whose rating it is ----------------

  /** The endpoint as written: the rating is filed under `User.Identity.Name`,
      which the bearer handler takes from the name claim, i.e. the display name. */
  function RateIdeaAsWritten(s: Store, ideaId: Guid, value: int, caller: Caller, newId: Guid): (r: (Response, Store))
    ensures r.0.status == StatusOk ==> newId in r.1.ratings && r.1.ratings[newId].userId == caller.name
    ensures r.0.status == StatusOk ==> caller.name in s.users
  {
    RateIdea(s, ideaId, value, caller.name, newId)
  }

  /** The endpoint as intended: the rating is filed under the caller's user id. */
  function RateIdeaAsCaller(s: Store, ideaId: Guid, value: int, caller: Caller, newId: Guid): (r: (Response, Store))
    ensures r.0.status == StatusOk ==> newId in r.1.ratings && r.1.ratings[newId].userId == caller.nameIdentifier
    ensures r.0.status == StatusOk ==> caller.nameIdentifier in s.users
  {
    RateIdea(s, ideaId, value, caller.nameIdentifier, newId)
  }

  /** Intended behaviour: a registered caller who has not rated the idea gets
      every in-range rating accepted, under their own id. */
  lemma CallerRatingAccepted(s: Store, ideaId: Guid, value: int, caller: Caller, newId: Guid)
    requires Valid(s) && !RatingService.HasRated(s, ideaId, caller.nameIdentifier)
    requires newId !in s.ratings && ideaId in s.ideas && caller.nameIdentifier in s.users
    requires 1 <= value <= 5
    ensures RateIdeaAsCaller(s, ideaId, value, caller, newId).0 == Response(StatusOk, MessageObject(RatedMessage))
    ensures RateIdeaAsCaller(s, ideaId, value, caller, newId).1.ratings[newId]
         == Rating(value, ideaId, caller.nameIdentifier)
  {
    RatingService.AddRatingSucceedsIff(s, ideaId, value, caller.nameIdentifier, newId,
                                       RatingService.DuplicateRatingMessage);
  }

  /** As written, a registered user whose display name is not their id cannot
      rate at all: the caller read from the token the codec issued them puts the
      display name where the user id belongs, and the insert names a user row
      that does not exist. */
  lemma DisplayNameIsNotUserId(opts: JwtService.JwtOptions, jwtGuid: Bytes16, now: Instant)
    ensures Valid(AliceStore)
    ensures CallerOf(JwtService.CreateAccessToken(opts, "u1", AliceStore.users["u1"], jwtGuid, now).claims)
         == Some(Caller("u1", "Alice"))
    ensures RateIdeaAsWritten(AliceStore, 0, 3, Caller("u1", "Alice"), 1).0
         == Response(StatusBadRequest, MessageObject(Message(SaveFailed)))
    ensures RateIdeaAsCaller(AliceStore, 0, 3, Caller("u1", "Alice"), 1).0
         == Response(StatusOk, MessageObject(RatedMessage))
  {
    AliceTokenCaller(opts, jwtGuid, now);
    AliceRatings();
  }

  /** On the counterexample store the display name is refused and the id accepted. */
  lemma AliceRatings()
    ensures Valid(AliceStore)
    ensures RateIdeaAsWritten(AliceStore, 0, 3, Caller("u1", "Alice"), 1).0
         == Response(StatusBadRequest, MessageObject(Message(SaveFailed)))
    ensures RateIdeaAsCaller(AliceStore, 0, 3, Caller("u1", "Alice"), 1).0
         == Response(StatusOk, MessageObject(RatedMessage))
  {
    var s := AliceStore;
    assert Valid(s);
    assert !RatingService.HasRated(s, 0, "Alice") && !RatingService.HasRated(s, 0, "u1");
    var pending := s.(ratings := s.ratings[1 := Rating(3, 0, "Alice")]);
    assert !ForeignKeysOk(pending) by {
      assert pending.ratings[1].userId !in pending.users;
    }
    CallerRatingAccepted(s, 0, 3, Caller("u1", "Alice"), 1);
  }
}

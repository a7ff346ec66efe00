/** `RatingService.RateIdeaAsync`, and the duplicate-check-then-insert step it
    shares with `IdeaService.RateAsync`. Neither service checks the value
    range; only the store's check constraint does. */
module RatingService {
  import opened Wrappers
  import opened Keys
  import opened Persistence

  const DuplicateRatingMessage: string := "User already rated this idea."

  /** The `AnyAsync` duplicate test; it reads every rating row. */
  predicate HasRated(s: Store, ideaId: Guid, userId: UserId) {
    exists k | k in s.ratings :: s.ratings[k].ideaId == ideaId && s.ratings[k].userId == userId
  }

  /** In a valid store the duplicate test is answered by exactly one row, the
      one the unique index on `(UserId, IdeaId)` allows. */
  lemma HasRatedFindsOneRow(s: Store, ideaId: Guid, userId: UserId)
    requires Valid(s)
    ensures HasRated(s, ideaId, userId) <==>
      exists k :: k in s.ratings && s.ratings[k].ideaId == ideaId && s.ratings[k].userId == userId
        && (forall j | j in s.ratings && s.ratings[j].ideaId == ideaId && s.ratings[j].userId == userId :: j == k)
  {
    if HasRated(s, ideaId, userId) {
      var k :| k in s.ratings && s.ratings[k].ideaId == ideaId && s.ratings[k].userId == userId;
      forall j | j in s.ratings && s.ratings[j].ideaId == ideaId && s.ratings[j].userId == userId
        ensures j == k
      {
        AtMostOneRatingPerPair(s, j, k);
      }
    }
  }

  /** Rejects a second rating of `ideaId` by `userId` before touching the
      store, otherwise inserts `Rating(value, ideaId, userId)` under `newId` and saves. */
  function AddRating(s: Store, ideaId: Guid, value: int, userId: UserId, newId: Guid, duplicateMessage: string)
    : (r: Result<Store, Error>)
    ensures r == Failure(AlreadyRated(duplicateMessage)) <==> HasRated(s, ideaId, userId)
    ensures r.Failure? ==> r.error in {AlreadyRated(duplicateMessage), SaveFailed}
    ensures r.Success? ==>
      && newId !in s.ratings
      && r.value.ratings.Keys == s.ratings.Keys + {newId}
      && r.value.ratings[newId] == Rating(value, ideaId, userId)
      && (forall k | k in s.ratings :: r.value.ratings[k] == s.ratings[k])
      && r.value == s.(ratings := r.value.ratings)
    ensures r.Success? ==> MinRatingValue <= value <= MaxRatingValue && Valid(r.value)
  {
    if HasRated(s, ideaId, userId) then Failure(AlreadyRated(duplicateMessage))
    else if newId in s.ratings then Failure(SaveFailed)
    else Commit(s.(ratings := s.ratings[newId := Rating(value, ideaId, userId)]))
  }

  /** `RateIdeaAsync`. */
  function RateIdea(s: Store, ideaId: Guid, value: int, userId: UserId, newId: Guid): (r: Result<Store, Error>)
    ensures r == Failure(AlreadyRated(DuplicateRatingMessage)) <==> HasRated(s, ideaId, userId)
    ensures HasRated(s, ideaId, userId) ==> Message(r.error) == DuplicateRatingMessage
    ensures r.Failure? ==> r.error in {AlreadyRated(DuplicateRatingMessage), SaveFailed}
    ensures r.Success? ==>
      && newId !in s.ratings
      && r.value.ratings == s.ratings[newId := Rating(value, ideaId, userId)]
      && r.value == s.(ratings := r.value.ratings)
    ensures r.Success? ==> MinRatingValue <= value <= MaxRatingValue && Valid(r.value)
  {
    AddRating(s, ideaId, value, userId, newId, DuplicateRatingMessage)
  }

  /** On a valid store without a rating by this user for this idea, the insert
      succeeds exactly when the id is fresh, the value is within 1..5, and the
      idea and user rows exist (a soft-deleted user still satisfies the key). */
  lemma AddRatingSucceedsIff(s: Store, ideaId: Guid, value: int, userId: UserId, newId: Guid, msg: string)
    requires Valid(s) && !HasRated(s, ideaId, userId)
    ensures AddRating(s, ideaId, value, userId, newId, msg).Success?
        <==> newId !in s.ratings && MinRatingValue <= value <= MaxRatingValue
             && ideaId in s.ideas && userId in s.users
  {
    var pending := s.(ratings := s.ratings[newId := Rating(value, ideaId, userId)]);
    if newId !in s.ratings && MinRatingValue <= value <= MaxRatingValue && ideaId in s.ideas && userId in s.users {
      assert RatingPairsUnique(pending);
      assert Valid(pending);
    } else if newId !in s.ratings {
      assert !Valid(pending) by {
        assert pending.ratings[newId] == Rating(value, ideaId, userId);
      }
    }
  }

  /** Rating the same idea twice as the same user fails the second time, leaving the store as the first call left it. */
  lemma RateTwiceFails(s: Store, ideaId: Guid, value: int, value2: int, userId: UserId, newId: Guid, newId2: Guid)
    requires RateIdea(s, ideaId, value, userId, newId).Success?
    ensures var t := RateIdea(s, ideaId, value, userId, newId).value;
      RateIdea(t, ideaId, value2, userId, newId2) == Failure(AlreadyRated(DuplicateRatingMessage))
  {
    var t := RateIdea(s, ideaId, value, userId, newId).value;
    assert t.ratings[newId].ideaId == ideaId && t.ratings[newId].userId == userId;
  }

  /** A rating by another user, or on another idea, never makes a rating count as a duplicate. */
  lemma OtherRatingsNeverBlock(s: Store, ideaId: Guid, userId: UserId, k: Guid, other: Rating)
    requires other.ideaId != ideaId || other.userId != userId
    requires k !in s.ratings
    ensures HasRated(s.(ratings := s.ratings[k := other]), ideaId, userId) == HasRated(s, ideaId, userId)
  {
    var t := s.(ratings := s.ratings[k := other]);
    if HasRated(t, ideaId, userId) {
      var j :| j in t.ratings && t.ratings[j].ideaId == ideaId && t.ratings[j].userId == userId;
      assert j != k && j in s.ratings;
    }
    if HasRated(s, ideaId, userId) {
      var j :| j in s.ratings && s.ratings[j].ideaId == ideaId && s.ratings[j].userId == userId;
      assert j in t.ratings && t.ratings[j] == s.ratings[j];
    }
  }
}

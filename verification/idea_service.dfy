/** `IdeaService`: creating, reading, listing and rating ideas. */
module IdeaService {
  import opened Wrappers
  import opened Keys
  import opened Persistence
  import opened Listing
  import RatingService

  datatype CreateIdeaDto = CreateIdeaDto(title: string, description: string, isAnonymous: bool, teamId: Option<Guid>)

  datatype IdeaDto = IdeaDto(
    id: Guid,
    title: string,
    description: string,
    isAnonymous: bool,
    teamId: Option<Guid>,
    userId: UserId,
    averageRating: real)

  /** `CreateAsync`: inserts one idea copying the DTO and the caller id under
      the fresh `newId` and returns that id. */
  function Create(s: Store, dto: CreateIdeaDto, userId: UserId, newId: Guid): (r: Result<(Guid, Store), Error>)
    ensures r.Failure? ==> r.error == SaveFailed
    ensures r.Success? ==> var (id, t) := r.value;
      && id == newId && newId !in s.ideas
      && t.ideas.Keys == s.ideas.Keys + {newId}
      && t.ideas[newId] == Idea(dto.title, dto.description, dto.isAnonymous, userId, dto.teamId)
      && (forall k | k in s.ideas :: t.ideas[k] == s.ideas[k])
      && t == s.(ideas := t.ideas)
      && Valid(t)
  {
    if newId in s.ideas then Failure(SaveFailed)
    else
      var pending := s.(ideas := s.ideas[newId := Idea(dto.title, dto.description, dto.isAnonymous, userId, dto.teamId)]);
      match Commit(pending)
      case Success(t) => Success((newId, t))
      case Failure(e) => Failure(e)
  }

  /** On a valid store, creation succeeds exactly when the id is fresh, title
      and description fit their columns, and author and team (if any) exist. */
  lemma CreateSucceedsIff(s: Store, dto: CreateIdeaDto, userId: UserId, newId: Guid)
    requires Valid(s)
    ensures Create(s, dto, userId, newId).Success?
        <==> && newId !in s.ideas
             && |dto.title| <= IdeaTitleMaxLength && |dto.description| <= IdeaDescriptionMaxLength
             && userId in s.users
             && (dto.teamId.None? || dto.teamId.value in s.teams)
  {
    var idea := Idea(dto.title, dto.description, dto.isAnonymous, userId, dto.teamId);
    var pending := s.(ideas := s.ideas[newId := idea]);
    if newId !in s.ideas {
      assert pending.ideas[newId] == idea;
      if |dto.title| <= IdeaTitleMaxLength && |dto.description| <= IdeaDescriptionMaxLength
         && userId in s.users && (dto.teamId.None? || dto.teamId.value in s.teams) {
        assert ForeignKeysOk(pending);
        assert Valid(pending);
      }
    }
  }

  // ---------------- average rating ----------------

  /** The keys of the ratings an idea's `Ratings` navigation loads. */
  function RatingsOf(s: Store, ideaId: Guid): (ks: set<Guid>)
    ensures forall k :: k in ks <==> k in s.ratings && s.ratings[k].ideaId == ideaId
  {
    set k | k in s.ratings && s.ratings[k].ideaId == ideaId
  }

  ghost function SumOf(ratings: map<Guid, Rating>, keys: set<Guid>): int
    requires keys <= ratings.Keys
    decreases keys
  {
    if keys == {} then 0
    else
      var k :| k in keys;
      ratings[k].value + SumOf(ratings, keys - {k})
  }

  lemma {:induction false} SumBounds(ratings: map<Guid, Rating>, keys: set<Guid>)
    requires keys <= ratings.Keys
    requires forall k | k in keys :: MinRatingValue <= ratings[k].value <= MaxRatingValue
    ensures |keys| * MinRatingValue <= SumOf(ratings, keys) <= |keys| * MaxRatingValue
    decreases keys
  {
    if keys != {} {
      forall k | k in keys
        ensures (|keys| - 1) * MinRatingValue <= SumOf(ratings, keys - {k}) <= (|keys| - 1) * MaxRatingValue
      {
        SumBounds(ratings, keys - {k});
      }
    }
  }

  /** `Ratings.Any() ? Ratings.Average(r => r.Value) : 0`, over exact reals. */
  ghost function AverageRating(s: Store, ideaId: Guid): real {
    var ks := RatingsOf(s, ideaId);
    if ks == {} then 0.0 else SumOf(s.ratings, ks) as real / |ks| as real
  }

  /** The average is the mean: taken once per rating it adds up to the ratings'
      sum; with no ratings it is 0. */
  lemma AverageIsMean(s: Store, ideaId: Guid)
    ensures RatingsOf(s, ideaId) == {} ==> AverageRating(s, ideaId) == 0.0
    ensures AverageRating(s, ideaId) * |RatingsOf(s, ideaId)| as real == SumOf(s.ratings, RatingsOf(s, ideaId)) as real
  {
    var ks := RatingsOf(s, ideaId);
    if ks != {} {
      var q := SumOf(s.ratings, ks) as real / |ks| as real;
      assert q * |ks| as real == SumOf(s.ratings, ks) as real;
    }
  }

  lemma QuotientBounds(sum: real, n: real)
    requires n >= 1.0 && n <= sum <= 5.0 * n
    ensures 1.0 <= sum / n <= 5.0
  {
    var q := sum / n;
    assert q * n == sum;
  }

  /** In a valid store an idea's average is 0 (no ratings) or lies within 1..5. */
  lemma AverageRatingInRange(s: Store, ideaId: Guid)
    requires Valid(s)
    ensures RatingsOf(s, ideaId) == {} <==> AverageRating(s, ideaId) == 0.0
    ensures RatingsOf(s, ideaId) != {} ==> 1.0 <= AverageRating(s, ideaId) <= 5.0
  {
    var ks := RatingsOf(s, ideaId);
    if ks != {} {
      SumBounds(s.ratings, ks);
      var n := |ks| as real;
      var sum := SumOf(s.ratings, ks) as real;
      QuotientBounds(sum, n);
    }
  }

  // ---------------- reading ----------------

  /** The DTO of a stored idea: its key, its columns and its average. */
  ghost function ToIdeaDto(s: Store, id: Guid): (d: IdeaDto)
    requires id in s.ideas
    ensures d.id == id && d.userId == s.ideas[id].userId && d.teamId == s.ideas[id].teamId
    ensures d.averageRating == AverageRating(s, id)
  {
    var i := s.ideas[id];
    IdeaDto(id, i.title, i.description, i.isAnonymous, i.teamId, i.userId, AverageRating(s, id))
  }

  /** `GetByIdAsync`: null for an unknown id, otherwise the idea's fields and its average. */
  ghost function GetById(s: Store, id: Guid): (r: Option<IdeaDto>)
    ensures r.None? <==> id !in s.ideas
    ensures r.Some? ==>
      && r.value.id == id
      && r.value.title == s.ideas[id].title && r.value.description == s.ideas[id].description
      && r.value.isAnonymous == s.ideas[id].isAnonymous && r.value.teamId == s.ideas[id].teamId
      && r.value.userId == s.ideas[id].userId
      && r.value.averageRating == AverageRating(s, id)
      && (RatingsOf(s, id) == {} ==> r.value.averageRating == 0.0)
  {
    if id in s.ideas then Some(ToIdeaDto(s, id)) else None
  }

  ghost function IdeaRows(s: Store, keys: set<Guid>): (r: seq<IdeaDto>)
    requires keys <= s.ideas.Keys
    ensures ListsExactly(r, (d: IdeaDto) => d.id, keys)
    ensures forall i :: 0 <= i < |r| ==> r[i] == ToIdeaDto(s, r[i].id)
    decreases keys
  {
    if keys == {} then []
    else
      var k :| k in keys;
      var rest := IdeaRows(s, keys - {k});
      ConsStep(ToIdeaDto(s, k), rest, (d: IdeaDto) => d.id, k, keys);
      [ToIdeaDto(s, k)] + rest
  }

  /** `GetAllAsync`: one DTO per stored idea, each what `GetById` returns for it. */
  ghost function GetAll(s: Store): (r: seq<IdeaDto>)
    ensures |r| == |s.ideas|
    ensures forall k :: k in s.ideas ==> exists i :: 0 <= i < |r| && r[i].id == k
    ensures forall i, j :: 0 <= i < j < |r| ==> r[i].id != r[j].id
    ensures forall i :: 0 <= i < |r| ==> r[i].id in s.ideas && GetById(s, r[i].id) == Some(r[i])
  {
    IdeaRows(s, s.ideas.Keys)
  }

  // ---------------- rating ----------------

  const DuplicateRatingMessage: string := "You already rated this idea."

  /** `RateAsync`: the same duplicate check and insert as the rating service, with its own message. */
  function Rate(s: Store, ideaId: Guid, value: int, userId: UserId, newId: Guid): (r: Result<Store, Error>)
    ensures r == Failure(AlreadyRated(DuplicateRatingMessage)) <==> RatingService.HasRated(s, ideaId, userId)
    ensures r.Failure? ==> r.error in {AlreadyRated(DuplicateRatingMessage), SaveFailed}
    ensures r.Success? ==>
      && newId !in s.ratings
      && r.value.ratings == s.ratings[newId := Rating(value, ideaId, userId)]
      && r.value == s.(ratings := r.value.ratings)
    ensures r.Success? ==> MinRatingValue <= value <= MaxRatingValue && Valid(r.value)
  {
    RatingService.AddRating(s, ideaId, value, userId, newId, DuplicateRatingMessage)
  }
}

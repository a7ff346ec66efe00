/** `api/Team`: create a team and add a member on behalf of the caller. The
    action takes the admin id from `User.Identity.Name`, the display name,
    where the service expects a user id. Neither action catches exceptions, so
    a service failure escapes and the host answers 500; `NoBody` stands for
    the body the host chooses. */
module TeamController {
  import opened Wrappers
  import opened Keys
  import opened Persistence
  import opened Http
  import opened CallerIdentity
  import TeamService

  const UserAddedMessage: string := "User added successfully"

  /** The service outcome as the host answers it: 200 with `body` on success,
      500 on any exception. */
  function Answer<T>(r: Result<T, Error>, body: T -> Body): (resp: Response)
    ensures resp.status in {StatusOk, StatusInternalServerError}
    ensures resp.status == StatusOk <==> r.Success?
    ensures r.Success? ==> resp.body == body(r.value)
  {
    match r
    case Success(v) => Response(StatusOk, body(v))
    case Failure(_) => Response(StatusInternalServerError, NoBody)
  }

  /** `POST api/Team/create` as written: the caller's display name is the admin id. */
  function CreateTeamAsWritten(s: Store, name: string, caller: Caller, newId: Guid)
    : (r: (Response, Result<(Guid, Store), Error>))
    ensures r.1 == TeamService.CreateTeam(s, name, caller.name, newId)
    ensures r.0.status in {StatusOk, StatusInternalServerError}
    ensures r.0.status == StatusOk <==> r.1.Success?
    ensures r.0.status == StatusOk ==>
      r.0.body == TeamIdObject(newId) && FindUser(s, caller.name).Some?
      && r.1.value.1.teams[newId].adminId == caller.name
  {
    var res := TeamService.CreateTeam(s, name, caller.name, newId);
    (Answer(res, (v: (Guid, Store)) => TeamIdObject(v.0)), res)
  }

  /** The action as intended: the caller's user id is the admin id. */
  function CreateTeamAsCaller(s: Store, name: string, caller: Caller, newId: Guid)
    : (r: (Response, Result<(Guid, Store), Error>))
    ensures r.1 == TeamService.CreateTeam(s, name, caller.nameIdentifier, newId)
    ensures r.0.status in {StatusOk, StatusInternalServerError}
    ensures r.0.status == StatusOk <==> r.1.Success?
    ensures r.0.status == StatusOk ==>
      r.0.body == TeamIdObject(newId) && FindUser(s, caller.nameIdentifier).Some?
      && r.1.value.1.teams[newId].adminId == caller.nameIdentifier
  {
    var res := TeamService.CreateTeam(s, name, caller.nameIdentifier, newId);
    (Answer(res, (v: (Guid, Store)) => TeamIdObject(v.0)), res)
  }

  /** `POST api/Team/{teamId}/add-user/{userId}` as written: the caller's
      display name is compared with the team's admin id. */
  function AddUserToTeamAsWritten(s: Store, teamId: Guid, caller: Caller, userId: UserId)
    : (r: (Response, Result<Store, Error>))
    ensures r.1 == TeamService.AddUserToTeam(s, teamId, caller.name, userId)
    ensures r.0.status in {StatusOk, StatusInternalServerError}
    ensures r.0.status == StatusOk <==> r.1.Success?
    ensures r.0.status == StatusOk ==>
      r.0.body == MessageObject(UserAddedMessage)
      && teamId in s.teams && s.teams[teamId].adminId == caller.name
  {
    var res := TeamService.AddUserToTeam(s, teamId, caller.name, userId);
    (Answer(res, (_: Store) => MessageObject(UserAddedMessage)), res)
  }

  /** The action as intended: the caller's user id is compared with the admin id. */
  function AddUserToTeamAsCaller(s: Store, teamId: Guid, caller: Caller, userId: UserId)
    : (r: (Response, Result<Store, Error>))
    ensures r.1 == TeamService.AddUserToTeam(s, teamId, caller.nameIdentifier, userId)
    ensures r.0.status in {StatusOk, StatusInternalServerError}
    ensures r.0.status == StatusOk <==> r.1.Success?
    ensures r.0.status == StatusOk ==>
      r.0.body == MessageObject(UserAddedMessage)
      && teamId in s.teams && s.teams[teamId].adminId == caller.nameIdentifier
  {
    var res := TeamService.AddUserToTeam(s, teamId, caller.nameIdentifier, userId);
    (Answer(res, (_: Store) => MessageObject(UserAddedMessage)), res)
  }

  /** As written, the admin of a team whose display name is not their id is
      refused with "Only admin can add users.", whoever they try to add; as
      intended, the admin check passes. */
  lemma AdminRefusedByDisplayName(s: Store, teamId: Guid, caller: Caller, userId: UserId)
    requires teamId in s.teams && s.teams[teamId].adminId == caller.nameIdentifier
    requires caller.name != caller.nameIdentifier
    ensures AddUserToTeamAsWritten(s, teamId, caller, userId).1 == Failure(NotTeamAdmin)
    ensures AddUserToTeamAsWritten(s, teamId, caller, userId).0 == Response(StatusInternalServerError, NoBody)
    ensures AddUserToTeamAsCaller(s, teamId, caller, userId).1 !in {Failure(TeamNotFound), Failure(NotTeamAdmin)}
  {
  }

  /** As written, user "u1", displayed as "Alice", cannot create a team: the
      service looks up a user "Alice" and throws "Admin user not found."; as
      intended, the team is created with "u1" as its admin. */
  lemma DisplayNameIsNotAdminId(newId: Guid)
    ensures CreateTeamAsWritten(AliceStore, "T", Caller("u1", "Alice"), newId).1 == Failure(AdminNotFound)
    ensures CreateTeamAsWritten(AliceStore, "T", Caller("u1", "Alice"), newId).0.status == StatusInternalServerError
    ensures CreateTeamAsCaller(AliceStore, "T", Caller("u1", "Alice"), newId).0
         == Response(StatusOk, TeamIdObject(newId))
  {
    assert Valid(AliceStore);
    TeamService.CreateTeamSucceedsIff(AliceStore, "T", "u1", newId);
  }
}

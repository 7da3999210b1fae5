/** The team use cases: create a team with its members, and read a team back. */
module Teams {
  import opened Domain
  import opened Seqs
  import opened Ports

  class TeamService {
    const users: UserRepository
    const teams: TeamRepository
    /** False models a nil transaction manager. */
    const hasTxManager: bool

    constructor (users: UserRepository, teams: TeamRepository, hasTxManager: bool)
      ensures this.users == users && this.teams == teams && this.hasTxManager == hasTxManager
    {
      this.users := users;
      this.teams := teams;
      this.hasTxManager := hasTxManager;
    }

    /** The creation step gets past the existence check and the team insert succeeds. */
    predicate InsertsTeam(name: TeamName)
      reads teams
    {
      teams.ByName(name).Err? && Is(teams.ByName(name).error, TeamNotFound) &&
      TeamCreate(name) !in teams.faults && name !in teams.names
    }

    /** The creation step also gets past the member upsert. */
    predicate UpsertsMembers(name: TeamName, members: seq<User>)
      reads users, teams
    {
      InsertsTeam(name) && users.UpsertFault(name, members).None?
    }

    /** The error the creation step returns in the current state: an existing team, a
        lookup error other than "not found", then the insert, the upsert and the re-read. */
    function CreateRefusal(name: TeamName, members: seq<User>): Option<Error>
      reads users, teams
    {
      match teams.ByName(name)
      case Ok(_) => Some(TeamExists)
      case Err(e) =>
        if !Is(e, TeamNotFound) then Some(e)
        else if TeamCreate(name) in teams.faults then Some(teams.faults[TeamCreate(name)])
        else if name in teams.names then Some(Opaque("failed to create team"))
        else if users.UpsertFault(name, members).Some? then users.UpsertFault(name, members)
        else if UserGetByTeam(name) in users.faults then Some(users.faults[UserGetByTeam(name)])
        else None
    }

    /** Create: inserts the team, upserts the members onto it and answers the team with
        its members as stored afterwards. Writes done before a failing step stay. */
    method Create(name: TeamName, members: seq<User>) returns (team: Team, stored: seq<User>, err: Option<Error>)
      modifies users, teams
      ensures !hasTxManager ==> (team == ZeroTeam && stored == [] && err == Some(TransactionRequired) &&
        users.log == old(users.log) && teams.log == old(teams.log))
      ensures hasTxManager ==> err == Do(old(CreateRefusal(name, members)))
      ensures err.Some? ==> team == ZeroTeam && stored == []
      ensures teams.names == if hasTxManager && old(InsertsTeam(name)) then old(teams.names) + [name] else old(teams.names)
      ensures users.rows == if hasTxManager && old(UpsertsMembers(name, members)) then UpsertAll(old(users.rows), name, members) else old(users.rows)
      ensures old(users.Valid()) ==> users.Valid()
      ensures err.None? ==> team == Team(name) && stored == OnTeam(users.rows, name)
      ensures err.None? && old(users.Valid()) ==> forall m :: m in members ==> exists u :: u in stored && u.id == m.id
    {
      if !hasTxManager {
        return ZeroTeam, [], Some(TransactionRequired);
      }
      var refusal;
      team, stored, refusal := CreateOperation(name, members);
      err := Do(refusal);
    }

    /** The body of the transaction of Create. */
    method CreateOperation(name: TeamName, members: seq<User>) returns (team: Team, stored: seq<User>, refusal: Option<Error>)
      modifies users, teams
      ensures refusal == old(CreateRefusal(name, members))
      ensures refusal.Some? ==> team == ZeroTeam && stored == []
      ensures teams.names == if old(InsertsTeam(name)) then old(teams.names) + [name] else old(teams.names)
      ensures users.rows == if old(UpsertsMembers(name, members)) then UpsertAll(old(users.rows), name, members) else old(users.rows)
      ensures old(users.Valid()) ==> users.Valid()
      ensures refusal.None? ==> team == Team(name) && stored == OnTeam(users.rows, name)
      ensures refusal.None? && old(users.Valid()) ==> forall m :: m in members ==> exists u :: u in stored && u.id == m.id
    {
      var existing := teams.GetByName(name);
      if existing.Ok? {
        return ZeroTeam, [], Some(TeamExists);
      } else if !Is(existing.error, TeamNotFound) {
        return ZeroTeam, [], Some(existing.error);
      }
      var created := teams.Create(Team(name));
      if created.Some? {
        return ZeroTeam, [], created;
      }
      var upserted := users.UpsertMembers(name, members);
      if upserted.Some? {
        return ZeroTeam, [], upserted;
      }
      var reread := users.GetUsersByTeam(name);
      if reread.Err? {
        return ZeroTeam, [], Some(reread.error);
      }
      stored := reread.value;
      team := Team(name);
      refusal := None;
      if old(users.Valid()) {
        UpsertAllStoresMembers(old(users.rows), name, members);
        forall m | m in members ensures exists u :: u in stored && u.id == m.id {
          var u := FindUser(users.rows, m.id).value;
          OnTeamMembership(users.rows, name, u);
        }
      }
    }

    /** GetByName: the team and its members, or the first lookup's error. */
    method GetByName(name: TeamName) returns (team: Team, members: seq<User>, err: Option<Error>)
      modifies users, teams
      ensures users.rows == old(users.rows) && teams.names == old(teams.names)
      ensures teams.ByName(name).Err? ==>
        team == ZeroTeam && members == [] && err == Some(teams.ByName(name).error) && users.log == old(users.log)
      ensures teams.ByName(name).Ok? && users.ByTeam(name).Err? ==>
        team == ZeroTeam && members == [] && err == Some(users.ByTeam(name).error)
      ensures teams.ByName(name).Ok? && users.ByTeam(name).Ok? ==>
        team == Team(name) && members == OnTeam(users.rows, name) && err == None
    {
      var found := teams.GetByName(name);
      if found.Err? {
        return ZeroTeam, [], Some(found.error);
      }
      var listed := users.GetUsersByTeam(name);
      if listed.Err? {
        return ZeroTeam, [], Some(listed.error);
      }
      return found.value, listed.value, None;
    }
  }
}

/** The ports the services depend on, as abstract state. Each repository keeps its rows,
    a log of the calls made on it, and a fixed fault table: a call listed there fails
    with the given error instead of touching the rows (the store being unreachable, a
    driver error). Rows are sequences with unique IDs, so list reads have an order. */
module Ports {
  import opened Domain
  import opened Seqs
  import opened Entities

  /** One call on a repository port, with the arguments that identify it. */
  datatype Call =
    | UserGetByID(userId: UserID)
    | UserGetByTeam(team: TeamName)
    | UserGetAll
    | UserUpsertMembers(team: TeamName)
    | UserSetIsActive(userId: UserID)
      // reading the affected-row count after the update has run
    | UserRowsAffected(userId: UserID)
    | TeamCreate(team: TeamName)
    | TeamGetByName(team: TeamName)
    | TeamGetAll
    | PRCreate(prId: PullRequestID)
    | PRSave(prId: PullRequestID)
    | PRGetByID(prId: PullRequestID)
    | PRGetByReviewer(userId: UserID)
    | PRGetAll
    | PRReassignReviewer(prId: PullRequestID)

  // ---------------------------------------------------------------- users

  predicate UniqueUserIds(rows: seq<User>)
  {
    forall i, j :: 0 <= i < j < |rows| ==> rows[i].id != rows[j].id
  }

  function FindUser(rows: seq<User>, id: UserID): (r: Option<User>)
    ensures r.Some? ==> r.value in rows && r.value.id == id
    ensures r.None? ==> forall u :: u in rows ==> u.id != id
  {
    if rows == [] then None
    else if rows[0].id == id then Some(rows[0])
    else FindUser(rows[1..], id)
  }

  /** The users whose team is `team`, in storage order. */
  function OnTeam(rows: seq<User>, team: TeamName): seq<User>
  {
    Filter(rows, (u: User) => u.team == team)
  }

  lemma OnTeamMembership(rows: seq<User>, team: TeamName, u: User)
    ensures u in OnTeam(rows, team) <==> u in rows && u.team == team
  {
    FilterMembership(rows, (u: User) => u.team == team, u);
  }

  /** Insert-or-update of one user row, keyed by ID. */
  function Upsert(rows: seq<User>, u: User): seq<User>
  {
    if rows == [] then [u]
    else if rows[0].id == u.id then [u] + rows[1..]
    else [rows[0]] + Upsert(rows[1..], u)
  }

  /** UpsertMembers: every member written in turn, with its team set to `team`. */
  function UpsertAll(rows: seq<User>, team: TeamName, members: seq<User>): seq<User>
    decreases |members|
  {
    if members == [] then rows
    else UpsertAll(Upsert(rows, members[0].(team := team)), team, members[1..])
  }

  lemma UpsertFacts(rows: seq<User>, u: User)
    requires UniqueUserIds(rows)
    ensures UniqueUserIds(Upsert(rows, u))
    ensures FindUser(Upsert(rows, u), u.id) == Some(u)
    ensures forall id :: id != u.id ==> FindUser(Upsert(rows, u), id) == FindUser(rows, id)
    ensures forall v :: v in Upsert(rows, u) ==> v == u || v in rows
  {
    UpsertFinds(rows, u);
    UpsertKeepsUnique(rows, u);
  }

  /** Where the upserted user lands, and that nothing else is looked up differently. */
  lemma {:induction false} UpsertFinds(rows: seq<User>, u: User)
    ensures FindUser(Upsert(rows, u), u.id) == Some(u)
    ensures forall id :: id != u.id ==> FindUser(Upsert(rows, u), id) == FindUser(rows, id)
    ensures forall v :: v in Upsert(rows, u) ==> v == u || v in rows
  {
    if rows != [] && rows[0].id != u.id {
      UpsertFinds(rows[1..], u);
      assert Upsert(rows, u) == [rows[0]] + Upsert(rows[1..], u);
    }
  }

  lemma {:induction false} UpsertKeepsUnique(rows: seq<User>, u: User)
    requires UniqueUserIds(rows)
    ensures UniqueUserIds(Upsert(rows, u))
  {
    if rows == [] {
      UniqueCons(u, []);
    } else {
      UniqueSplit(rows);
      if rows[0].id == u.id {
        UniqueCons(u, rows[1..]);
      } else {
        UpsertKeepsUnique(rows[1..], u);
        UpsertFinds(rows[1..], u);
        UniqueCons(rows[0], Upsert(rows[1..], u));
      }
    }
  }

  /** Unique IDs split into a head whose ID the tail does not repeat, and a unique tail. */
  lemma UniqueSplit(rows: seq<User>)
    requires rows != [] && UniqueUserIds(rows)
    ensures UniqueUserIds(rows[1..])
    ensures forall v :: v in rows[1..] ==> v.id != rows[0].id
  {
    forall v | v in rows[1..] ensures v.id != rows[0].id {
      var k :| 0 <= k < |rows[1..]| && rows[1..][k] == v;
      assert rows[k + 1] == v;
    }
  }

  /** A user whose ID the unique rows do not hold can be put in front of them. */
  lemma UniqueCons(x: User, tail: seq<User>)
    requires UniqueUserIds(tail) && forall v :: v in tail ==> v.id != x.id
    ensures UniqueUserIds([x] + tail)
  {
    var r := [x] + tail;
    forall i, j | 0 <= i < j < |r| ensures r[i].id != r[j].id {
      assert r[j] == tail[j - 1];
      if i > 0 {
        assert r[i] == tail[i - 1];
      }
    }
  }

  /** After UpsertMembers every member is stored under its ID, on `team`, and the
      rows still have unique IDs. */
  lemma {:induction false} UpsertAllStoresMembers(rows: seq<User>, team: TeamName, members: seq<User>)
    requires UniqueUserIds(rows)
    decreases |members|
    ensures UniqueUserIds(UpsertAll(rows, team, members))
    ensures forall m :: m in members ==>
      FindUser(UpsertAll(rows, team, members), m.id).Some? &&
      FindUser(UpsertAll(rows, team, members), m.id).value.team == team
  {
    if members != [] {
      var first := members[0].(team := team);
      var next := Upsert(rows, first);
      UpsertFacts(rows, first);
      UpsertAllStoresMembers(next, team, members[1..]);
      forall m | m in members
        ensures FindUser(UpsertAll(rows, team, members), m.id).Some?
        ensures FindUser(UpsertAll(rows, team, members), m.id).value.team == team
      {
        if m !in members[1..] {
          if later :| later in members[1..] && later.id == m.id {
            assert FindUser(UpsertAll(next, team, members[1..]), later.id).Some?;
          } else {
            UpsertAllKeepsOthers(next, team, members[1..], m.id);
          }
        }
      }
    }
  }

  /** Rows whose ID no later member carries survive UpsertMembers unchanged. */
  lemma {:induction false} UpsertAllKeepsOthers(rows: seq<User>, team: TeamName, members: seq<User>, id: UserID)
    requires UniqueUserIds(rows)
    requires forall m :: m in members ==> m.id != id
    ensures FindUser(UpsertAll(rows, team, members), id) == FindUser(rows, id)
    decreases |members|
  {
    if members != [] {
      UpsertFacts(rows, members[0].(team := team));
      UpsertAllKeepsOthers(Upsert(rows, members[0].(team := team)), team, members[1..], id);
    }
  }

  /** The row with `id` (if any) with its active flag set to `flag`. */
  function SetActive(rows: seq<User>, id: UserID, flag: bool): (r: seq<User>)
    ensures |r| == |rows|
  {
    seq(|rows|, i requires 0 <= i < |rows| => if rows[i].id == id then rows[i].(isActive := flag) else rows[i])
  }

  class UserRepository {
    var rows: seq<User>
    var log: seq<Call>
    const faults: map<Call, Error>

    constructor (rows: seq<User>, faults: map<Call, Error>)
      ensures this.rows == rows && this.faults == faults && log == []
    {
      this.rows := rows;
      this.faults := faults;
      log := [];
    }

    ghost predicate Valid()
      reads this`rows
    {
      UniqueUserIds(rows)
    }

    /** What GetByID answers in the current state. */
    function ByID(id: UserID): Result<User>
      reads this`rows
    {
      if UserGetByID(id) in faults then Err(faults[UserGetByID(id)])
      else match FindUser(rows, id)
        case Some(u) => Ok(u)
        case None => Err(UserNotFound)
    }

    /** What GetUsersByTeam answers in the current state. */
    function ByTeam(team: TeamName): Result<seq<User>>
      reads this`rows
    {
      if UserGetByTeam(team) in faults then Err(faults[UserGetByTeam(team)]) else Ok(OnTeam(rows, team))
    }

    method GetByID(id: UserID) returns (r: Result<User>)
      modifies this
      ensures r == ByID(id) && rows == old(rows) && log == old(log) + [UserGetByID(id)]
    {
      r := ByID(id);
      log := log + [UserGetByID(id)];
    }

    method GetUsersByTeam(team: TeamName) returns (r: Result<seq<User>>)
      modifies this
      ensures r == ByTeam(team) && rows == old(rows) && log == old(log) + [UserGetByTeam(team)]
    {
      r := ByTeam(team);
      log := log + [UserGetByTeam(team)];
    }

    method GetAll() returns (r: Result<seq<User>>)
      modifies this
      ensures r == (if UserGetAll in faults then Err(faults[UserGetAll]) else Ok(rows))
      ensures rows == old(rows) && log == old(log) + [UserGetAll]
    {
      r := if UserGetAll in faults then Err(faults[UserGetAll]) else Ok(rows);
      log := log + [UserGetAll];
    }

    /** The failure of an upsert: it runs one statement per member, so an empty member
        list reaches no statement and cannot fail. */
    function UpsertFault(team: TeamName, members: seq<User>): (e: Option<Error>)
      ensures e.Some? <==> members != [] && UserUpsertMembers(team) in faults
      ensures e.Some? ==> e.value == faults[UserUpsertMembers(team)]
    {
      if members != [] && UserUpsertMembers(team) in faults then Some(faults[UserUpsertMembers(team)]) else None
    }

    /** Insert-or-update of every member, overwriting username, team and active flag. */
    method UpsertMembers(team: TeamName, members: seq<User>) returns (err: Option<Error>)
      modifies this
      ensures log == old(log) + [UserUpsertMembers(team)]
      ensures err == UpsertFault(team, members)
      ensures members == [] ==> err == None && rows == old(rows)
      ensures rows == if err.Some? then old(rows) else UpsertAll(old(rows), team, members)
      ensures old(Valid()) ==> Valid()
    {
      log := log + [UserUpsertMembers(team)];
      if members != [] && UserUpsertMembers(team) in faults {
        return Some(faults[UserUpsertMembers(team)]);
      }
      if Valid() {
        UpsertAllStoresMembers(rows, team, members);
      }
      rows := UpsertAll(rows, team, members);
      return None;
    }

    /** Sets the active flag and answers the updated user, as read back by GetByID. A
        failing update writes nothing; once it ran, the flag stays written even when the
        affected-row count or the read back fails; no affected row is ErrUserNotFound. */
    method SetIsActive(id: UserID, flag: bool) returns (r: Result<User>)
      modifies this
      ensures UserSetIsActive(id) in faults ==>
        r == Err(faults[UserSetIsActive(id)]) && rows == old(rows) && log == old(log) + [UserSetIsActive(id)]
      ensures UserSetIsActive(id) !in faults ==> rows == SetActive(old(rows), id, flag)
      ensures UserSetIsActive(id) !in faults && UserRowsAffected(id) in faults ==>
        r == Err(faults[UserRowsAffected(id)]) && log == old(log) + [UserSetIsActive(id)]
      ensures UserSetIsActive(id) !in faults && UserRowsAffected(id) !in faults && FindUser(old(rows), id).None? ==>
        r == Err(UserNotFound) && rows == old(rows) && log == old(log) + [UserSetIsActive(id)]
      ensures UserSetIsActive(id) !in faults && UserRowsAffected(id) !in faults && FindUser(old(rows), id).Some? ==>
        log == old(log) + [UserSetIsActive(id), UserGetByID(id)] &&
        r == if UserGetByID(id) in faults then Err(faults[UserGetByID(id)])
             else Ok(FindUser(old(rows), id).value.(isActive := flag))
      ensures old(Valid()) ==> Valid()
    {
      log := log + [UserSetIsActive(id)];
      if UserSetIsActive(id) in faults {
        return Err(faults[UserSetIsActive(id)]);
      }
      var found := FindUser(rows, id);
      SetActiveFinds(rows, id, flag);
      rows := SetActive(rows, id, flag);
      if UserRowsAffected(id) in faults {
        return Err(faults[UserRowsAffected(id)]);
      }
      if found.None? {
        return Err(UserNotFound);
      }
      r := GetByID(id);
    }
  }

  lemma SetActiveFinds(rows: seq<User>, id: UserID, flag: bool)
    ensures UniqueUserIds(rows) ==> UniqueUserIds(SetActive(rows, id, flag))
    ensures FindUser(rows, id).Some? ==> FindUser(SetActive(rows, id, flag), id) == Some(FindUser(rows, id).value.(isActive := flag))
    ensures FindUser(rows, id).None? ==> SetActive(rows, id, flag) == rows
  {
    var r := SetActive(rows, id, flag);
    assert forall i :: 0 <= i < |rows| ==> r[i].id == rows[i].id;
    if FindUser(rows, id).None? {
      forall i | 0 <= i < |rows| ensures r[i] == rows[i] {
        assert rows[i] in rows;
      }
    } else {
      SetActiveFindsFirst(rows, id, flag);
    }
  }

  /** The first row with `id` is found again, with the new flag. */
  lemma {:induction false} SetActiveFindsFirst(rows: seq<User>, id: UserID, flag: bool)
    requires FindUser(rows, id).Some?
    ensures FindUser(SetActive(rows, id, flag), id) == Some(FindUser(rows, id).value.(isActive := flag))
  {
    if rows[0].id != id {
      SetActiveFindsFirst(rows[1..], id, flag);
      assert SetActive(rows, id, flag)[1..] == SetActive(rows[1..], id, flag);
    }
  }

  // ---------------------------------------------------------------- teams

  function TeamsOf(names: seq<TeamName>): (r: seq<Team>)
    ensures |r| == |names| && forall i :: 0 <= i < |names| ==> r[i].name == names[i]
  {
    seq(|names|, i requires 0 <= i < |names| => Team(names[i]))
  }

  class TeamRepository {
    var names: seq<TeamName>
    var log: seq<Call>
    const faults: map<Call, Error>

    constructor (names: seq<TeamName>, faults: map<Call, Error>)
      ensures this.names == names && this.faults == faults && log == []
    {
      this.names := names;
      this.faults := faults;
      log := [];
    }

    ghost predicate Valid()
      reads this`names
    {
      NoDuplicates(names)
    }

    /** What GetByName answers in the current state. */
    function ByName(name: TeamName): (r: Result<Team>)
      reads this`names
      ensures r.Ok? ==> r.value == Team(name)
    {
      if TeamGetByName(name) in faults then Err(faults[TeamGetByName(name)])
      else if name in names then Ok(Team(name))
      else Err(TeamNotFound)
    }

    /** Inserts the team; the store refuses a second team with the same name. */
    method Create(team: Team) returns (err: Option<Error>)
      modifies this
      ensures log == old(log) + [TeamCreate(team.name)]
      ensures err == (if TeamCreate(team.name) in faults then Some(faults[TeamCreate(team.name)])
                      else if team.name in old(names) then Some(Opaque("failed to create team"))
                      else None)
      ensures names == if err.Some? then old(names) else old(names) + [team.name]
      ensures old(Valid()) ==> Valid()
    {
      log := log + [TeamCreate(team.name)];
      if TeamCreate(team.name) in faults {
        return Some(faults[TeamCreate(team.name)]);
      }
      if team.name in names {
        return Some(Opaque("failed to create team"));
      }
      names := names + [team.name];
      return None;
    }

    method GetByName(name: TeamName) returns (r: Result<Team>)
      modifies this
      ensures r == ByName(name) && names == old(names) && log == old(log) + [TeamGetByName(name)]
    {
      r := ByName(name);
      log := log + [TeamGetByName(name)];
    }

    method GetAll() returns (r: Result<seq<Team>>)
      modifies this
      ensures r == (if TeamGetAll in faults then Err(faults[TeamGetAll])
                    else Ok(TeamsOf(names)))
      ensures names == old(names) && log == old(log) + [TeamGetAll]
    {
      r := if TeamGetAll in faults then Err(faults[TeamGetAll])
           else Ok(TeamsOf(names));
      log := log + [TeamGetAll];
    }
  }

  // ---------------------------------------------------------------- pull requests

  predicate UniquePullRequestIds(rows: seq<PullRequestRow>)
  {
    forall i, j :: 0 <= i < j < |rows| ==> rows[i].id != rows[j].id
  }

  function FindRow(rows: seq<PullRequestRow>, id: PullRequestID): (r: Option<PullRequestRow>)
    ensures r.Some? ==> r.value in rows && r.value.id == id
    ensures r.None? ==> forall p :: p in rows ==> p.id != id
  {
    if rows == [] then None
    else if rows[0].id == id then Some(rows[0])
    else FindRow(rows[1..], id)
  }

  /** List reads do not load the reviewer rows. */
  function Unloaded(row: PullRequestRow): PullRequestRow
  {
    row.(reviewers := [])
  }

  function UnloadAll(rows: seq<PullRequestRow>): (r: seq<PullRequestRow>)
    ensures |r| == |rows| && forall i :: 0 <= i < |rows| ==> r[i] == Unloaded(rows[i])
  {
    seq(|rows|, i requires 0 <= i < |rows| => Unloaded(rows[i]))
  }

  /** The conditional update of the reviewer rows: every `oldId` of that pull request
      becomes `newId`; when none matches, nothing changes and no error is raised. */
  function ReplaceAll(s: seq<UserID>, oldId: UserID, newId: UserID): (r: seq<UserID>)
    ensures |r| == |s|
  {
    seq(|s|, i requires 0 <= i < |s| => if s[i] == oldId then newId else s[i])
  }

  function SwapReviewer(rows: seq<PullRequestRow>, id: PullRequestID, oldId: UserID, newId: UserID): (r: seq<PullRequestRow>)
    ensures |r| == |rows|
  {
    seq(|rows|, i requires 0 <= i < |rows| =>
      if rows[i].id == id then rows[i].(reviewers := ReplaceAll(rows[i].reviewers, oldId, newId)) else rows[i])
  }

  /** Save writes only the status and the merge time. */
  function SaveStatus(rows: seq<PullRequestRow>, id: PullRequestID, status: Status, mergedAt: Option<Timestamp>): (r: seq<PullRequestRow>)
    ensures |r| == |rows|
  {
    seq(|rows|, i requires 0 <= i < |rows| =>
      if rows[i].id == id then rows[i].(status := status, mergedAt := mergedAt) else rows[i])
  }

  /** On a duplicate-free list, the store's replace-every-match agrees with the entity's
      replace-the-first-match. */
  lemma ReplaceAllIsSingleSwap(s: seq<UserID>, oldId: UserID, newId: UserID)
    requires NoDuplicates(s) && oldId in s
    ensures ReplaceAll(s, oldId, newId) == s[IndexOf(s, oldId) := newId]
  {
    var k := IndexOf(s, oldId);
    forall i | 0 <= i < |s| ensures ReplaceAll(s, oldId, newId)[i] == s[k := newId][i] {
    }
  }

  /** After the conditional update, a lookup of that pull request sees its first row with
      the reviewer rows rewritten; other lookups see what they saw before. */
  lemma {:induction false} FindAfterSwap(rows: seq<PullRequestRow>, id: PullRequestID, oldId: UserID, newId: UserID, key: PullRequestID)
    ensures FindRow(SwapReviewer(rows, id, oldId, newId), key) ==
      match FindRow(rows, key)
      case None => None
      case Some(row) => Some(if key == id then row.(reviewers := ReplaceAll(row.reviewers, oldId, newId)) else row)
  {
    if rows != [] {
      assert SwapReviewer(rows, id, oldId, newId)[1..] == SwapReviewer(rows[1..], id, oldId, newId);
      FindAfterSwap(rows[1..], id, oldId, newId, key);
    }
  }

  /** The in-place rewrites keep every row's ID, hence their uniqueness. */
  lemma RewritesKeepIds(rows: seq<PullRequestRow>, id: PullRequestID, oldId: UserID, newId: UserID, status: Status, mergedAt: Option<Timestamp>)
    requires UniquePullRequestIds(rows)
    ensures UniquePullRequestIds(SwapReviewer(rows, id, oldId, newId))
    ensures UniquePullRequestIds(SaveStatus(rows, id, status, mergedAt))
  {
    var swapped, saved := SwapReviewer(rows, id, oldId, newId), SaveStatus(rows, id, status, mergedAt);
    assert forall i :: 0 <= i < |rows| ==> swapped[i].id == rows[i].id && saved[i].id == rows[i].id;
  }

  class PullRequestRepository {
    var rows: seq<PullRequestRow>
    var log: seq<Call>
    const faults: map<Call, Error>

    constructor (rows: seq<PullRequestRow>, faults: map<Call, Error>)
      ensures this.rows == rows && this.faults == faults && log == []
    {
      this.rows := rows;
      this.faults := faults;
      log := [];
    }

    ghost predicate Valid()
      reads this`rows
    {
      UniquePullRequestIds(rows)
    }

    /** What GetByID answers in the current state. */
    function ByID(id: PullRequestID): (r: Result<PullRequestRow>)
      reads this`rows
      ensures r.Ok? ==> r.value.id == id
    {
      if PRGetByID(id) in faults then Err(faults[PRGetByID(id)])
      else match FindRow(rows, id)
        case Some(row) => Ok(row)
        case None => Err(PRNotFound)
    }

    /** Inserts the pull request with its reviewers; the store refuses a second row
        with the same ID. */
    method Create(pr: PullRequest) returns (err: Option<Error>)
      modifies this
      ensures log == old(log) + [PRCreate(pr.id)]
      ensures err == (if PRCreate(pr.id) in faults then Some(faults[PRCreate(pr.id)])
                      else if FindRow(old(rows), pr.id).Some? then Some(Opaque("failed to insert pull request"))
                      else None)
      ensures rows == if err.Some? then old(rows) else old(rows) + [pr.Row()]
      ensures old(Valid()) ==> Valid()
    {
      log := log + [PRCreate(pr.id)];
      if PRCreate(pr.id) in faults {
        return Some(faults[PRCreate(pr.id)]);
      }
      if FindRow(rows, pr.id).Some? {
        return Some(Opaque("failed to insert pull request"));
      }
      rows := rows + [pr.Row()];
      return None;
    }

    /** Writes the status and merge time of the row with the same ID (none: no change). */
    method Save(pr: PullRequest) returns (err: Option<Error>)
      modifies this
      ensures log == old(log) + [PRSave(pr.id)]
      ensures err == (if PRSave(pr.id) in faults then Some(faults[PRSave(pr.id)]) else None)
      ensures rows == if err.Some? then old(rows) else SaveStatus(old(rows), pr.id, pr.status, pr.mergedAt)
      ensures old(Valid()) ==> Valid()
    {
      log := log + [PRSave(pr.id)];
      if PRSave(pr.id) in faults {
        return Some(faults[PRSave(pr.id)]);
      }
      if Valid() {
        RewritesKeepIds(rows, pr.id, "", "", pr.status, pr.mergedAt);
      }
      rows := SaveStatus(rows, pr.id, pr.status, pr.mergedAt);
      return None;
    }

    /** Materialises the stored row as a new entity object. */
    method GetByID(id: PullRequestID) returns (r: Result<PullRequest>)
      modifies this
      ensures rows == old(rows) && log == old(log) + [PRGetByID(id)]
      ensures r.Ok? <==> ByID(id).Ok?
      ensures r.Err? ==> r.error == ByID(id).error
      ensures r.Ok? ==> fresh(r.value) && r.value.Row() == ByID(id).value
    {
      log := log + [PRGetByID(id)];
      var found := ByID(id);
      if found.Err? {
        return Err(found.error);
      }
      var pr := new PullRequest.Load(found.value);
      return Ok(pr);
    }

    /** The pull requests that list `userId` as a reviewer, without their reviewer lists. */
    method GetByReviewer(userId: UserID) returns (r: Result<seq<PullRequestRow>>)
      modifies this
      ensures rows == old(rows) && log == old(log) + [PRGetByReviewer(userId)]
      ensures r == if PRGetByReviewer(userId) in faults then Err(faults[PRGetByReviewer(userId)])
                   else Ok(ReviewedBy(rows, userId))
    {
      log := log + [PRGetByReviewer(userId)];
      r := if PRGetByReviewer(userId) in faults then Err(faults[PRGetByReviewer(userId)])
           else Ok(ReviewedBy(rows, userId));
    }

    /** Every pull request, without its reviewer list. */
    method GetAll() returns (r: Result<seq<PullRequestRow>>)
      modifies this
      ensures rows == old(rows) && log == old(log) + [PRGetAll]
      ensures r == if PRGetAll in faults then Err(faults[PRGetAll])
                   else Ok(UnloadAll(rows))
    {
      log := log + [PRGetAll];
      r := if PRGetAll in faults then Err(faults[PRGetAll])
           else Ok(UnloadAll(rows));
    }

    method ReassignReviewer(id: PullRequestID, oldId: UserID, newId: UserID) returns (err: Option<Error>)
      modifies this
      ensures log == old(log) + [PRReassignReviewer(id)]
      ensures err == (if PRReassignReviewer(id) in faults then Some(faults[PRReassignReviewer(id)]) else None)
      ensures rows == if err.Some? then old(rows) else SwapReviewer(old(rows), id, oldId, newId)
      ensures old(Valid()) ==> Valid()
    {
      log := log + [PRReassignReviewer(id)];
      if PRReassignReviewer(id) in faults {
        return Some(faults[PRReassignReviewer(id)]);
      }
      if Valid() {
        RewritesKeepIds(rows, id, oldId, newId, Open, None);
      }
      rows := SwapReviewer(rows, id, oldId, newId);
      return None;
    }
  }

  /** The rows that list `userId` as a reviewer, in storage order, unloaded. The store's
      join yields a pull request once per reviewer row naming the user; a pull request's
      reviewer rows are distinct (the entity invariant, kept by every write), so that is
      once per pull request, as here. */
  function ReviewedBy(rows: seq<PullRequestRow>, userId: UserID): seq<PullRequestRow>
  {
    UnloadAll(Filter(rows, (p: PullRequestRow) => userId in p.reviewers))
  }

  // ---------------------------------------------------------------- transactions

  /** TxManager.Do, once the operation has run: success stays success, and an error
      comes back wrapped as "operation failed: %w", so `errors.Is` still finds it. */
  function Do(outcome: Option<Error>): (r: Option<Error>)
    ensures r.None? <==> outcome.None?
    ensures outcome.Some? ==> r.value != outcome.value && Is(r.value, outcome.value) && Root(r.value) == Root(outcome.value)
  {
    if outcome.None? then None else Some(Wrapped("operation failed", outcome.value))
  }

  // ---------------------------------------------------------------- randomness

  /** The index the next Intn(n) yields for the stream `draws`. */
  function Pick(draws: seq<nat>, n: nat): (k: nat)
    requires n > 0
    ensures k < n
  {
    if draws == [] then 0 else draws[0] % n
  }


  /** The random source as an oracle: `draws` is whatever stream of numbers the
      generator will produce; each Intn consumes one. */
  class RandomProvider {
    var draws: seq<nat>

    constructor (draws: seq<nat>)
      ensures this.draws == draws
    {
      this.draws := draws;
    }

    /** An index in [0, n); Go's Intn panics when n <= 0. */
    method Intn(n: nat) returns (k: nat)
      requires n > 0
      modifies this
      ensures k == Pick(old(draws), n) && k < n
      ensures draws == if old(draws) == [] then [] else old(draws)[1..]
    {
      k := Pick(draws, n);
      draws := if draws == [] then [] else draws[1..];
    }

    /** Fisher-Yates, as math/rand runs it, with the swap callback of the caller
        applied to `a`: the result is a permutation of the input. */
    method Shuffle(a: array<UserID>)
      modifies this, a
      ensures multiset(a[..]) == multiset(old(a[..]))
    {
      var i := a.Length - 1;
      while i > 0
        invariant i < a.Length
        invariant multiset(a[..]) == multiset(old(a[..]))
      {
        var j := Intn(i + 1);
        a[i], a[j] := a[j], a[i];
        i := i - 1;
      }
    }
  }
}

/** The statistics use case: one snapshot of every user, team and pull request, and the
    counts derived from it. */
module Stats {
  import opened Domain
  import opened Seqs
  import opened Entities
  import opened Ports

  datatype UserStats = UserStats(userId: UserID, username: string, pullRequestsCreated: nat, teamName: TeamName)

  datatype TeamStats = TeamStats(teamName: TeamName, memberCount: nat, activeMembers: nat, pullRequestsCount: nat)

  datatype ReviewAssignment = ReviewAssignment(pullRequestId: PullRequestID, pullRequestName: string, authorId: UserID, status: string)

  datatype StatsResponse = StatsResponse(
    totalPullRequests: nat,
    openPullRequests: nat,
    mergedPullRequests: nat,
    usersStats: seq<UserStats>,
    teamsStats: seq<TeamStats>,
    reviewAssignments: seq<ReviewAssignment>)

  function OpenCount(prs: seq<PullRequestRow>): nat
  {
    Count(prs, (p: PullRequestRow) => p.status == Open)
  }

  function MergedCount(prs: seq<PullRequestRow>): nat
  {
    Count(prs, (p: PullRequestRow) => p.status == Merged)
  }

  function AuthoredCount(prs: seq<PullRequestRow>, userId: UserID): nat
  {
    Count(prs, (p: PullRequestRow) => p.authorId == userId)
  }

  function MemberCount(users: seq<User>, team: TeamName): nat
  {
    Count(users, (u: User) => u.team == team)
  }

  function ActiveCount(users: seq<User>, team: TeamName): nat
  {
    Count(users, (u: User) => u.team == team && u.isActive)
  }

  /** Some user with this ID is on this team. */
  predicate AuthorOnTeam(users: seq<User>, authorId: UserID, team: TeamName)
  {
    exists k :: 0 <= k < |users| && users[k].id == authorId && users[k].team == team
  }

  function TeamPullRequestCount(prs: seq<PullRequestRow>, users: seq<User>, team: TeamName): nat
  {
    Count(prs, (p: PullRequestRow) => AuthorOnTeam(users, p.authorId, team))
  }

  function UserStatsOf(users: seq<User>, prs: seq<PullRequestRow>): (r: seq<UserStats>)
    ensures |r| == |users|
  {
    seq(|users|, i requires 0 <= i < |users| =>
      UserStats(users[i].id, users[i].username, AuthoredCount(prs, users[i].id), users[i].team))
  }

  function TeamStatsOf(teams: seq<Team>, users: seq<User>, prs: seq<PullRequestRow>): (r: seq<TeamStats>)
    ensures |r| == |teams|
  {
    seq(|teams|, i requires 0 <= i < |teams| =>
      TeamStats(teams[i].name, MemberCount(users, teams[i].name), ActiveCount(users, teams[i].name),
                TeamPullRequestCount(prs, users, teams[i].name)))
  }

  function AssignmentsOf(prs: seq<PullRequestRow>): (r: seq<ReviewAssignment>)
    ensures |r| == |prs|
  {
    seq(|prs|, i requires 0 <= i < |prs| =>
      ReviewAssignment(prs[i].id, prs[i].name, prs[i].authorId, StatusText(prs[i].status)))
  }

  /** The response GetStats builds from one snapshot. */
  function Summarize(users: seq<User>, teams: seq<Team>, prs: seq<PullRequestRow>): StatsResponse
  {
    StatsResponse(|prs|, OpenCount(prs), MergedCount(prs),
                  UserStatsOf(users, prs), TeamStatsOf(teams, users, prs), AssignmentsOf(prs))
  }

  /** No pull request is both open and merged, so the two counts never exceed the total. */
  lemma OpenAndMergedWithinTotal(prs: seq<PullRequestRow>)
    ensures OpenCount(prs) + MergedCount(prs) <= |prs|
  {
    CountDisjoint(prs, (p: PullRequestRow) => p.status == Open, (p: PullRequestRow) => p.status == Merged);
  }

  /** Active members are members. */
  lemma ActiveWithinMembers(users: seq<User>, team: TeamName)
    ensures ActiveCount(users, team) <= MemberCount(users, team)
  {
    CountMonotone(users, (u: User) => u.team == team && u.isActive, (u: User) => u.team == team);
  }

  /** The invariants of a statistics response: one entry per user, team and pull request
      in input order, open plus merged within the total, active members within members. */
  lemma SummaryBounds(users: seq<User>, teams: seq<Team>, prs: seq<PullRequestRow>)
    ensures var r := Summarize(users, teams, prs);
      r.openPullRequests + r.mergedPullRequests <= r.totalPullRequests &&
      |r.usersStats| == |users| && |r.teamsStats| == |teams| && |r.reviewAssignments| == |prs| &&
      (forall i :: 0 <= i < |users| ==> r.usersStats[i].userId == users[i].id) &&
      (forall i :: 0 <= i < |teams| ==> r.teamsStats[i].teamName == teams[i].name) &&
      (forall t :: t in r.teamsStats ==>
         t.activeMembers <= t.memberCount && t.pullRequestsCount <= r.totalPullRequests)
  {
    OpenAndMergedWithinTotal(prs);
    var r := Summarize(users, teams, prs);
    forall t | t in r.teamsStats
      ensures t.activeMembers <= t.memberCount && t.pullRequestsCount <= r.totalPullRequests
    {
      var i :| 0 <= i < |teams| && r.teamsStats[i] == t;
      ActiveWithinMembers(users, teams[i].name);
    }
  }

  /** An empty snapshot gives zero counts and empty lists. */
  lemma EmptySnapshot()
    ensures Summarize([], [], []) == StatsResponse(0, 0, 0, [], [], [])
  {
  }

  /** With unique user IDs a pull request is credited to at most one user, so the
      per-user "created" counts add up to at most the total. */
  lemma {:induction false} CreditedAtMostOnce(users: seq<User>, prs: seq<PullRequestRow>)
    requires UniqueUserIds(users)
    ensures SumCreated(UserStatsOf(users, prs)) <= |prs|
  {
    if prs != [] {
      var init, last := prs[..|prs| - 1], prs[|prs| - 1];
      CreditedAtMostOnce(users, init);
      assert prs == init + [last];
      SumCreatedSplits(users, init, last, prs);
      CreditsOfOne(users, last.authorId);
      assert SumCreated(UserStatsOf(users, init)) <= |init|;
    } else {
      NothingCredited(users);
    }
  }

  lemma {:induction false} NothingCredited(users: seq<User>)
    ensures SumCreated(UserStatsOf(users, [])) == 0
  {
    if users != [] {
      NothingCredited(users[..|users| - 1]);
      assert UserStatsOf(users, [])[..|users| - 1] == UserStatsOf(users[..|users| - 1], []);
    }
  }

  function SumCreated(stats: seq<UserStats>): nat
  {
    if stats == [] then 0 else SumCreated(stats[..|stats| - 1]) + stats[|stats| - 1].pullRequestsCreated
  }

  /** How many of `users` carry this ID. */
  function Holders(users: seq<User>, id: UserID): nat
  {
    if users == [] then 0 else Holders(users[..|users| - 1], id) + (if users[|users| - 1].id == id then 1 else 0)
  }

  lemma {:induction false} CreditsOfOne(users: seq<User>, id: UserID)
    requires UniqueUserIds(users)
    ensures Holders(users, id) <= 1
    ensures Holders(users, id) == 1 ==> exists k :: 0 <= k < |users| && users[k].id == id
  {
    if users != [] {
      var init := users[..|users| - 1];
      assert UniqueUserIds(init) by {
        forall i, j | 0 <= i < j < |init| ensures init[i].id != init[j].id {
          assert init[i] == users[i] && init[j] == users[j];
        }
      }
      CreditsOfOne(init, id);
      assert users == init + [users[|users| - 1]];
    }
  }

  /** Adding one pull request raises the sum by the number of users holding its author ID. */
  lemma {:induction false} SumCreatedSplits(users: seq<User>, init: seq<PullRequestRow>, last: PullRequestRow, prs: seq<PullRequestRow>)
    requires prs == init + [last]
    ensures SumCreated(UserStatsOf(users, prs)) == SumCreated(UserStatsOf(users, init)) + Holders(users, last.authorId)
  {
    if users != [] {
      var front := users[..|users| - 1];
      var u := users[|users| - 1];
      SumCreatedSplits(front, init, last, prs);
      assert prs[..|prs| - 1] == init;
      assert AuthoredCount(prs, u.id) == AuthoredCount(init, u.id) + (if last.authorId == u.id then 1 else 0);
      assert UserStatsOf(users, prs)[..|users| - 1] == UserStatsOf(front, prs);
      assert UserStatsOf(users, init)[..|users| - 1] == UserStatsOf(front, init);
    }
  }

  method CountOpenPullRequests(prs: seq<PullRequestRow>) returns (count: nat)
    ensures count == OpenCount(prs)
  {
    count := 0;
    for i := 0 to |prs|
      invariant count == OpenCount(prs[..i])
    {
      assert prs[..i + 1][..i] == prs[..i];
      if prs[i].status == Open {
        count := count + 1;
      }
    }
    assert prs[..|prs|] == prs;
  }

  method CountMergedPullRequests(prs: seq<PullRequestRow>) returns (count: nat)
    ensures count == MergedCount(prs)
  {
    count := 0;
    for i := 0 to |prs|
      invariant count == MergedCount(prs[..i])
    {
      assert prs[..i + 1][..i] == prs[..i];
      if prs[i].status == Merged {
        count := count + 1;
      }
    }
    assert prs[..|prs|] == prs;
  }

  method CalculateUserStats(users: seq<User>, prs: seq<PullRequestRow>) returns (stats: seq<UserStats>)
    ensures stats == UserStatsOf(users, prs)
  {
    stats := [];
    for i := 0 to |users|
      invariant stats == UserStatsOf(users[..i], prs)
    {
      var user := users[i];
      var created: nat := 0;
      for j := 0 to |prs|
        invariant created == AuthoredCount(prs[..j], user.id)
      {
        assert prs[..j + 1][..j] == prs[..j];
        if prs[j].authorId == user.id {
          created := created + 1;
        }
      }
      assert prs[..|prs|] == prs;
      stats := stats + [UserStats(user.id, user.username, created, user.team)];
    }
    assert users[..|users|] == users;
  }

  method CalculateTeamStats(teams: seq<Team>, users: seq<User>, prs: seq<PullRequestRow>) returns (stats: seq<TeamStats>)
    ensures stats == TeamStatsOf(teams, users, prs)
  {
    stats := [];
    for i := 0 to |teams|
      invariant stats == TeamStatsOf(teams[..i], users, prs)
    {
      var team := teams[i];
      var members: nat, active: nat := 0, 0;
      for j := 0 to |users|
        invariant members == MemberCount(users[..j], team.name)
        invariant active == ActiveCount(users[..j], team.name)
      {
        assert users[..j + 1][..j] == users[..j];
        if users[j].team == team.name {
          members := members + 1;
          if users[j].isActive {
            active := active + 1;
          }
        }
      }
      assert users[..|users|] == users;
      var authored: nat := 0;
      for j := 0 to |prs|
        invariant authored == TeamPullRequestCount(prs[..j], users, team.name)
      {
        var onTeam := AuthorOnTeamSearch(users, prs[j].authorId, team.name);
        assert prs[..j + 1][..j] == prs[..j];
        if onTeam {
          authored := authored + 1;
        }
      }
      assert prs[..|prs|] == prs;
      stats := stats + [TeamStats(team.name, members, active, authored)];
    }
    assert teams[..|teams|] == teams;
  }

  /** The inner loop of the team count: stops at the first user of the team with this ID. */
  method AuthorOnTeamSearch(users: seq<User>, authorId: UserID, team: TeamName) returns (found: bool)
    ensures found <==> AuthorOnTeam(users, authorId, team)
  {
    found := false;
    var k := 0;
    while k < |users| && !found
      invariant 0 <= k <= |users|
      invariant found ==> AuthorOnTeam(users, authorId, team)
      invariant !found ==> forall m :: 0 <= m < k ==> !(users[m].id == authorId && users[m].team == team)
    {
      if users[k].id == authorId && users[k].team == team {
        found := true;
      }
      k := k + 1;
    }
  }

  method CalculateReviewAssignments(prs: seq<PullRequestRow>) returns (assignments: seq<ReviewAssignment>)
    ensures assignments == AssignmentsOf(prs)
  {
    assignments := [];
    for i := 0 to |prs|
      invariant assignments == AssignmentsOf(prs[..i])
    {
      assignments := assignments + [ReviewAssignment(prs[i].id, prs[i].name, prs[i].authorId, StatusText(prs[i].status))];
    }
    assert prs[..|prs|] == prs;
  }

  class StatsService {
    const users: UserRepository
    const teams: TeamRepository
    const pullRequests: PullRequestRepository

    constructor (users: UserRepository, teams: TeamRepository, pullRequests: PullRequestRepository)
      ensures this.users == users && this.teams == teams && this.pullRequests == pullRequests
    {
      this.users := users;
      this.teams := teams;
      this.pullRequests := pullRequests;
    }

    /** GetStats: users, then teams, then pull requests; the first failing read ends the
        call with its error and no later read happens. */
    method GetStats() returns (stats: Option<StatsResponse>, err: Option<Error>)
      modifies users, teams, pullRequests
      ensures users.rows == old(users.rows) && teams.names == old(teams.names) && pullRequests.rows == old(pullRequests.rows)
      ensures UserGetAll in users.faults ==>
        stats == None && err == Some(users.faults[UserGetAll]) &&
        teams.log == old(teams.log) && pullRequests.log == old(pullRequests.log)
      ensures UserGetAll !in users.faults && TeamGetAll in teams.faults ==>
        stats == None && err == Some(teams.faults[TeamGetAll]) && pullRequests.log == old(pullRequests.log)
      ensures UserGetAll !in users.faults && TeamGetAll !in teams.faults && PRGetAll in pullRequests.faults ==>
        stats == None && err == Some(pullRequests.faults[PRGetAll])
      ensures UserGetAll !in users.faults && TeamGetAll !in teams.faults && PRGetAll !in pullRequests.faults ==>
        err == None && stats == Some(Summarize(users.rows, TeamsOf(teams.names), UnloadAll(pullRequests.rows)))
    {
      var allUsers := users.GetAll();
      if allUsers.Err? {
        return None, Some(allUsers.error);
      }
      var allTeams := teams.GetAll();
      if allTeams.Err? {
        return None, Some(allTeams.error);
      }
      var allPullRequests := pullRequests.GetAll();
      if allPullRequests.Err? {
        return None, Some(allPullRequests.error);
      }
      var prs := allPullRequests.value;
      var open := CountOpenPullRequests(prs);
      var merged := CountMergedPullRequests(prs);
      var userStats := CalculateUserStats(allUsers.value, prs);
      var teamStats := CalculateTeamStats(allTeams.value, allUsers.value, prs);
      var assignments := CalculateReviewAssignments(prs);
      return Some(StatsResponse(|prs|, open, merged, userStats, teamStats, assignments)), None;
    }
  }
}

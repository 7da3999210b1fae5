/** The pull-request use cases: create with automatic reviewer assignment, merge, and
    reassignment of one reviewer to a random eligible team mate. */
module PullRequests {
  import opened Domain
  import opened Seqs
  import opened Entities
  import opened Ports

  /** The candidates for a new pull request: active team members other than the author,
      in the order the repository listed them. */
  function CreatePool(authorId: UserID, members: seq<User>): seq<User>
  {
    Filter(members, (u: User) => u.isActive && u.id != authorId)
  }

  /** The inner loop of the reassignment filter: `id` is listed as a reviewer and is not
      the reviewer being replaced. */
  predicate AlreadyReviewer(reviewers: seq<UserID>, reviewerId: UserID, id: UserID)
  {
    id in reviewers && id != reviewerId
  }

  /** The candidates for replacing `reviewerId`: active, neither the author nor the
      replaced reviewer, and not already reviewing. */
  function ReassignPool(reviewers: seq<UserID>, authorId: UserID, reviewerId: UserID, members: seq<User>): seq<User>
  {
    Filter(members, (u: User) => u.isActive && u.id != authorId && u.id != reviewerId && !AlreadyReviewer(reviewers, reviewerId, u.id))
  }

  function IdsOf(users: seq<User>): (ids: seq<UserID>)
    ensures |ids| == |users|
  {
    seq(|users|, i requires 0 <= i < |users| => users[i].id)
  }

  lemma CreatePoolMembership(authorId: UserID, members: seq<User>, u: User)
    ensures u in CreatePool(authorId, members) <==> u in members && u.isActive && u.id != authorId
  {
    FilterMembership(members, (u: User) => u.isActive && u.id != authorId, u);
  }

  /** The source's two-part "already a reviewer" test amounts to plain non-membership once
      the replaced reviewer is excluded. */
  lemma ReassignPoolMembership(reviewers: seq<UserID>, authorId: UserID, reviewerId: UserID, members: seq<User>, u: User)
    ensures u in ReassignPool(reviewers, authorId, reviewerId, members) <==>
      u in members && u.isActive && u.id != authorId && u.id != reviewerId && u.id !in reviewers
  {
    FilterMembership(members, (u: User) => u.isActive && u.id != authorId && u.id != reviewerId && !AlreadyReviewer(reviewers, reviewerId, u.id), u);
  }

  /** Every ID in the creation pool belongs to an active team member who is not the author. */
  lemma CreatePoolIds(authorId: UserID, members: seq<User>, x: UserID)
    ensures x in IdsOf(CreatePool(authorId, members)) <==>
      exists u :: u in members && u.isActive && u.id != authorId && u.id == x
  {
    var pool := CreatePool(authorId, members);
    if x in IdsOf(pool) {
      var k :| 0 <= k < |pool| && IdsOf(pool)[k] == x;
      CreatePoolMembership(authorId, members, pool[k]);
    }
    if u :| u in members && u.isActive && u.id != authorId && u.id == x {
      CreatePoolMembership(authorId, members, u);
      var k :| 0 <= k < |pool| && pool[k] == u;
      assert IdsOf(pool)[k] == x;
    }
  }

  /** Reordering the candidates does not change which IDs are eligible. */
  lemma PermutedEligible(shuffled: seq<UserID>, ids: seq<UserID>, authorId: UserID)
    requires multiset(shuffled) == multiset(ids)
    ensures EligibleIds(shuffled, authorId, []) == Elements(ids) - {authorId}
  {
    assert forall x :: x in shuffled <==> x in multiset(ids);
  }

  /** toUserIDs: a new array holding each user's ID at that user's position. */
  method ToUserIDs(users: seq<User>) returns (ids: array<UserID>)
    ensures fresh(ids) && ids[..] == IdsOf(users)
  {
    ids := new UserID[|users|];
    for i := 0 to |users|
      invariant forall k :: 0 <= k < i ==> ids[k] == users[k].id
    {
      ids[i] := users[i].id;
    }
  }

  method FilterActiveUsersExcludeAuthor(authorId: UserID, candidates: seq<User>) returns (active: seq<User>)
    ensures active == CreatePool(authorId, candidates)
  {
    active := [];
    for i := 0 to |candidates|
      invariant active == CreatePool(authorId, candidates[..i])
    {
      assert candidates[..i + 1][..i] == candidates[..i];
      if candidates[i].isActive && candidates[i].id != authorId {
        active := active + [candidates[i]];
      }
    }
    assert candidates[..|candidates|] == candidates;
  }

  method FilterActiveUsersExcludeAuthorAndReviewer(pr: PullRequest, authorId: UserID, reviewerId: UserID, candidates: seq<User>)
    returns (active: seq<User>)
    ensures active == ReassignPool(pr.reviewers, authorId, reviewerId, candidates)
  {
    active := [];
    for i := 0 to |candidates|
      invariant active == ReassignPool(pr.reviewers, authorId, reviewerId, candidates[..i])
    {
      var candidate := candidates[i];
      var isAlreadyReviewer := false;
      var existing := pr.Reviewers();
      var j := 0;
      while j < existing.Length && !isAlreadyReviewer
        invariant 0 <= j <= existing.Length
        invariant isAlreadyReviewer ==> AlreadyReviewer(pr.reviewers, reviewerId, candidate.id)
        invariant !isAlreadyReviewer ==> forall k :: 0 <= k < j ==> !(existing[k] == candidate.id && existing[k] != reviewerId)
      {
        if existing[j] == candidate.id && existing[j] != reviewerId {
          isAlreadyReviewer := true;
        }
        j := j + 1;
      }
      assert candidates[..i + 1][..i] == candidates[..i];
      if candidate.isActive && candidate.id != authorId && candidate.id != reviewerId && !isAlreadyReviewer {
        active := active + [candidate];
      }
    }
    assert candidates[..|candidates|] == candidates;
  }

  class PullRequestService {
    const users: UserRepository
    const teams: TeamRepository
    const pullRequests: PullRequestRepository
    const random: RandomProvider
    /** False models a nil transaction manager. */
    const hasTxManager: bool

    constructor (users: UserRepository, teams: TeamRepository, pullRequests: PullRequestRepository,
                 random: RandomProvider, hasTxManager: bool)
      ensures this.users == users && this.teams == teams && this.pullRequests == pullRequests
      ensures this.random == random && this.hasTxManager == hasTxManager
    {
      this.users := users;
      this.teams := teams;
      this.pullRequests := pullRequests;
      this.random := random;
      this.hasTxManager := hasTxManager;
    }

    /** The error the creation step returns in the current state, checks in source order:
        an existing pull request, an unknown author, the author's team, an inactive author,
        the team's members, then the insert. */
    function CreateRefusal(id: PullRequestID, authorId: UserID): Option<Error>
      reads users, teams, pullRequests
    {
      if pullRequests.ByID(id).Ok? then Some(PRExists)
      else match users.ByID(authorId)
        case Err(_) => Some(UserNotFound)
        case Ok(author) =>
          match teams.ByName(author.team)
          case Err(e) => Some(e)
          case Ok(team) =>
            if !author.isActive then Some(AuthorNotActive)
            else match users.ByTeam(team.name)
              case Err(e) => Some(e)
              case Ok(_) =>
                if PRCreate(id) in pullRequests.faults then Some(pullRequests.faults[PRCreate(id)])
                else if FindRow(pullRequests.rows, id).Some? then Some(Opaque("failed to insert pull request"))
                else None
    }

    /** The error the reassignment step returns in the current state, checks in source
        order: the lookup, merged, unknown old reviewer, old reviewer not assigned, the
        author, the team, its members, an empty pool, then the update. */
    function ReassignRefusal(id: PullRequestID, oldId: UserID): Option<Error>
      reads users, teams, pullRequests
    {
      match pullRequests.ByID(id)
      case Err(e) => Some(e)
      case Ok(row) =>
        if row.status == Merged then Some(PRMerged)
        else if users.ByID(oldId).Err? then Some(UserNotFound)
        else if oldId !in row.reviewers then Some(NotAssigned)
        else match users.ByID(row.authorId)
          case Err(e) => Some(e)
          case Ok(author) =>
            match teams.ByName(author.team)
            case Err(e) => Some(e)
            case Ok(team) =>
              match users.ByTeam(team.name)
              case Err(e) => Some(e)
              case Ok(members) =>
                if ReassignPool(row.reviewers, row.authorId, oldId, members) == [] then Some(NoCandidate)
                else if PRReassignReviewer(id) in pullRequests.faults then Some(pullRequests.faults[PRReassignReviewer(id)])
                else None
    }

    /** The candidates a reassignment draws from, once every lookup succeeded. */
    function Replacements(id: PullRequestID, oldId: UserID): seq<User>
      reads users, teams, pullRequests
      requires ReassignRefusal(id, oldId).None?
    {
      var row := pullRequests.ByID(id).value;
      ReassignPool(row.reviewers, row.authorId, oldId, OnTeam(users.rows, users.ByID(row.authorId).value.team))
    }

    /** Create: the pull request is built OPEN at `now`, gets up to two distinct shuffled
        active team mates of the author as reviewers, and is stored. */
    method Create(id: PullRequestID, name: string, authorId: UserID, now: Timestamp)
      returns (result: PullRequest?, err: Option<Error>)
      modifies users, teams, pullRequests, random
      ensures users.rows == old(users.rows) && teams.names == old(teams.names)
      ensures !hasTxManager ==> (err == Some(TransactionRequired) &&
        users.log == old(users.log) && teams.log == old(teams.log) && pullRequests.log == old(pullRequests.log))
      ensures hasTxManager ==> err == Do(old(CreateRefusal(id, authorId)))
      ensures err.Some? ==> result == null && pullRequests.rows == old(pullRequests.rows)
      ensures err.None? ==>
        var pool := IdsOf(CreatePool(authorId, old(OnTeam(users.rows, users.ByID(authorId).value.team))));
        result != null && fresh(result) &&
        result.id == id && result.name == name && result.authorId == authorId && result.createdAt == now &&
        result.status == Open && result.mergedAt == None && result.Valid() &&
        (forall r :: r in result.reviewers ==> r in pool) &&
        |result.reviewers| == Min(MaxReviewers, |Elements(pool)|) &&
        pullRequests.rows == old(pullRequests.rows) + [result.Row()]
    {
      if !hasTxManager {
        return null, Some(TransactionRequired);
      }
      var created, refusal := CreateOperation(id, name, authorId, now);
      err := Do(refusal);
      result := if err.None? then created else null;
    }

    /** The body of the transaction of Create. */
    method CreateOperation(id: PullRequestID, name: string, authorId: UserID, now: Timestamp)
      returns (result: PullRequest?, refusal: Option<Error>)
      modifies users, teams, pullRequests, random
      ensures users.rows == old(users.rows) && teams.names == old(teams.names)
      ensures refusal == old(CreateRefusal(id, authorId))
      ensures refusal.Some? ==> pullRequests.rows == old(pullRequests.rows)
      ensures refusal.None? ==>
        var pool := IdsOf(CreatePool(authorId, old(OnTeam(users.rows, users.ByID(authorId).value.team))));
        result != null && fresh(result) &&
        result.id == id && result.name == name && result.authorId == authorId && result.createdAt == now &&
        result.status == Open && result.mergedAt == None && result.Valid() &&
        (forall r :: r in result.reviewers ==> r in pool) &&
        |result.reviewers| == Min(MaxReviewers, |Elements(pool)|) &&
        pullRequests.rows == old(pullRequests.rows) + [result.Row()]
    {
      var existing := pullRequests.GetByID(id);
      if existing.Ok? {
        return null, Some(PRExists);
      }
      var author := users.GetByID(authorId);
      if author.Err? {
        return null, Some(UserNotFound);
      }
      var team := teams.GetByName(author.value.team);
      if team.Err? {
        return null, Some(team.error);
      }
      if !author.value.isActive {
        return null, Some(AuthorNotActive);
      }
      var members := users.GetUsersByTeam(team.value.name);
      if members.Err? {
        return null, Some(members.error);
      }

      var pr := new PullRequest(id, name, authorId, now);
      var candidates := FilterActiveUsersExcludeAuthor(authorId, members.value);
      AssignReviewers(pr, candidates);
      CreatePoolIds(authorId, members.value, authorId);
      assert Elements(IdsOf(candidates)) - {authorId} == Elements(IdsOf(candidates));

      var stored := pullRequests.Create(pr);
      if stored.Some? {
        return null, stored;
      }
      return pr, None;
    }

    /** The assignment step of Create: when there are candidates, their IDs are shuffled
        and offered to the greedy fill of the new pull request. */
    method AssignReviewers(pr: PullRequest, candidates: seq<User>)
      requires pr.status == Open && pr.reviewers == [] && pr.mergedAt == None
      modifies pr, random
      ensures pr.status == Open && pr.mergedAt == None && pr.Valid()
      ensures forall r :: r in pr.reviewers ==> r in IdsOf(candidates)
      ensures |pr.reviewers| == Min(MaxReviewers, |Elements(IdsOf(candidates)) - {pr.authorId}|)
    {
      if |candidates| > 0 {
        var ids := ToUserIDs(candidates);
        random.Shuffle(ids);
        var _, panics := pr.AddReviewers(ids[..]);
        assert !panics;
        PermutedEligible(ids[..], IdsOf(candidates), pr.authorId);
        GreedyCount(ids[..], pr.authorId, [], MaxReviewers);
        GreedyKeepsReviewersDistinct(ids[..], pr.authorId, [], MaxReviewers);
        assert forall r :: r in ids[..] ==> r in multiset(IdsOf(candidates));
      }
    }

    /** Merge: the stored pull request is merged at `now` (a second merge keeps the
        first time) and its status written back. */
    method Merge(id: PullRequestID, now: Timestamp) returns (result: PullRequest?, err: Option<Error>)
      modifies pullRequests
      ensures pullRequests.ByID(id) == old(pullRequests.ByID(id)) || err.None?
      ensures old(pullRequests.ByID(id)).Err? ==>
        err == Some(old(pullRequests.ByID(id)).error) && result == null && pullRequests.rows == old(pullRequests.rows)
      ensures old(pullRequests.ByID(id)).Ok? && PRSave(id) in pullRequests.faults ==>
        err == Some(pullRequests.faults[PRSave(id)]) && result == null && pullRequests.rows == old(pullRequests.rows)
      ensures old(pullRequests.ByID(id)).Ok? && PRSave(id) !in pullRequests.faults ==>
        var row := old(pullRequests.ByID(id)).value;
        var mergedAt := if row.status == Merged then row.mergedAt else Some(now);
        err == None && result != null && fresh(result) &&
        result.Row() == row.(status := Merged, mergedAt := mergedAt) &&
        pullRequests.rows == SaveStatus(old(pullRequests.rows), id, Merged, mergedAt)
    {
      var found := pullRequests.GetByID(id);
      if found.Err? {
        return null, Some(found.error);
      }
      var pr := found.value;
      pr.Merge(now);
      var saved := pullRequests.Save(pr);
      if saved.Some? {
        return null, saved;
      }
      return pr, None;
    }

    /** ReassignReviewer: `oldId` is replaced by a random eligible team mate of the author,
        in the store; the pull request is read back and returned with the new reviewer. */
    method ReassignReviewer(id: PullRequestID, oldId: UserID)
      returns (result: PullRequest?, newId: UserID, err: Option<Error>)
      modifies users, teams, pullRequests, random
      ensures users.rows == old(users.rows) && teams.names == old(teams.names)
      ensures !hasTxManager ==> (err == Some(TransactionRequired) &&
        users.log == old(users.log) && teams.log == old(teams.log) && pullRequests.log == old(pullRequests.log))
      ensures hasTxManager ==> err == Do(old(ReassignRefusal(id, oldId)))
      ensures err.Some? ==> result == null && newId == "" && pullRequests.rows == old(pullRequests.rows)
      ensures err.None? ==>
        var row := old(pullRequests.ByID(id)).value;
        var pool := old(Replacements(id, oldId));
        newId == IdsOf(pool)[Pick(old(random.draws), |pool|)] &&
        NewReviewerEligible(old(users.rows), row, oldId, newId) &&
        result != null && fresh(result) &&
        result.Row() == row.(reviewers := ReplaceAll(row.reviewers, oldId, newId)) &&
        (ReviewersOk(row.authorId, row.reviewers) ==>
           result.reviewers == row.reviewers[IndexOf(row.reviewers, oldId) := newId] &&
           ReviewersOk(result.authorId, result.reviewers)) &&
        pullRequests.rows == SwapReviewer(old(pullRequests.rows), id, oldId, newId)
    {
      if !hasTxManager {
        return null, "", Some(TransactionRequired);
      }
      var refusal;
      result, newId, refusal := ReassignOperation(id, oldId);
      err := Do(refusal);
      if err.Some? {
        result, newId := null, "";
      }
    }

    /** The last steps of the reassignment: one draw picks the replacement among the
        candidates, the store swaps it in, and the pull request is read back. */
    method DrawAndSwap(id: PullRequestID, oldId: UserID, candidates: seq<User>)
      returns (result: PullRequest?, newId: UserID, err: Option<Error>)
      requires |candidates| > 0 && pullRequests.ByID(id).Ok?
      modifies pullRequests, random
      ensures newId == IdsOf(candidates)[Pick(old(random.draws), |candidates|)]
      ensures err == if PRReassignReviewer(id) in pullRequests.faults
        then Some(pullRequests.faults[PRReassignReviewer(id)]) else None
      ensures err.Some? ==> result == null && pullRequests.rows == old(pullRequests.rows)
      ensures err.None? ==>
        var row := old(pullRequests.ByID(id)).value;
        result != null && fresh(result) &&
        result.Row() == row.(reviewers := ReplaceAll(row.reviewers, oldId, newId)) &&
        pullRequests.rows == SwapReviewer(old(pullRequests.rows), id, oldId, newId)
    {
      var ids := ToUserIDs(candidates);
      var k := random.Intn(ids.Length);
      newId := ids[k];
      err := pullRequests.ReassignReviewer(id, oldId, newId);
      if err.Some? {
        return null, newId, err;
      }
      FindAfterSwap(old(pullRequests.rows), id, oldId, newId, id);
      var reread := pullRequests.GetByID(id);
      if reread.Err? {
        assert false;
      }
      result := reread.value;
    }

    /** The body of the transaction of ReassignReviewer. */
    method ReassignOperation(id: PullRequestID, oldId: UserID)
      returns (result: PullRequest?, newId: UserID, refusal: Option<Error>)
      modifies users, teams, pullRequests, random
      ensures users.rows == old(users.rows) && teams.names == old(teams.names)
      ensures refusal == old(ReassignRefusal(id, oldId))
      ensures refusal.Some? ==> pullRequests.rows == old(pullRequests.rows)
      ensures refusal.None? ==>
        var row := old(pullRequests.ByID(id)).value;
        var pool := old(Replacements(id, oldId));
        newId == IdsOf(pool)[Pick(old(random.draws), |pool|)] &&
        NewReviewerEligible(old(users.rows), row, oldId, newId) &&
        result != null && fresh(result) &&
        result.Row() == row.(reviewers := ReplaceAll(row.reviewers, oldId, newId)) &&
        (ReviewersOk(row.authorId, row.reviewers) ==>
           result.reviewers == row.reviewers[IndexOf(row.reviewers, oldId) := newId] &&
           ReviewersOk(result.authorId, result.reviewers)) &&
        pullRequests.rows == SwapReviewer(old(pullRequests.rows), id, oldId, newId)
    {
      var found := pullRequests.GetByID(id);
      if found.Err? {
        return null, "", Some(found.error);
      }
      var pr := found.value;
      if pr.IsMerged() {
        return null, "", Some(PRMerged);
      }
      var oldUser := users.GetByID(oldId);
      if oldUser.Err? {
        return null, "", Some(UserNotFound);
      }
      var isAssigned := pr.IsReviewer(oldId);
      if !isAssigned {
        return null, "", Some(NotAssigned);
      }
      var author := users.GetByID(pr.authorId);
      if author.Err? {
        return null, "", Some(author.error);
      }
      var team := teams.GetByName(author.value.team);
      if team.Err? {
        return null, "", Some(team.error);
      }
      var members := users.GetUsersByTeam(team.value.name);
      if members.Err? {
        return null, "", Some(members.error);
      }
      var candidates := FilterActiveUsersExcludeAuthorAndReviewer(pr, pr.authorId, oldId, members.value);
      if |candidates| == 0 {
        return null, "", Some(NoCandidate);
      }

      ghost var k := Pick(random.draws, |candidates|);
      ReassignPoolMembership(pr.reviewers, pr.authorId, oldId, members.value, candidates[k]);
      OnTeamMembership(users.rows, author.value.team, candidates[k]);
      ghost var row := pr.Row();
      var swapped;
      result, newId, swapped := DrawAndSwap(id, oldId, candidates);
      if swapped.Some? {
        return null, "", swapped;
      }
      assert NewReviewerEligible(users.rows, row, oldId, newId);
      StoredSwapKeepsReviewersOk(row, oldId, newId);
      refusal := None;
    }
  }

  /** On a well-formed reviewer list, the store's rewrite of the old reviewer is the
      entity's single swap, and it keeps the reviewer rules. */
  lemma StoredSwapKeepsReviewersOk(row: PullRequestRow, oldId: UserID, newId: UserID)
    requires oldId in row.reviewers && newId != row.authorId && newId !in row.reviewers
    ensures ReviewersOk(row.authorId, row.reviewers) ==>
      ReplaceAll(row.reviewers, oldId, newId) == row.reviewers[IndexOf(row.reviewers, oldId) := newId] &&
      ReviewersOk(row.authorId, ReplaceAll(row.reviewers, oldId, newId))
  {
    if ReviewersOk(row.authorId, row.reviewers) {
      ReplaceAllIsSingleSwap(row.reviewers, oldId, newId);
      SwapKeepsReviewersOk(row.authorId, row.reviewers, IndexOf(row.reviewers, oldId), newId);
    }
  }

  /** The guarantee about the replacement: an active member of the author's team who is
      neither the author, nor the replaced reviewer, nor already reviewing. */
  ghost predicate NewReviewerEligible(users: seq<User>, row: PullRequestRow, oldId: UserID, newId: UserID)
  {
    newId != row.authorId && newId != oldId && newId !in row.reviewers &&
    exists u :: u in users && u.id == newId && u.isActive &&
      FindUser(users, row.authorId).Some? && u.team == FindUser(users, row.authorId).value.team
  }
}

/** The user use cases: toggle a user's active flag, and list the pull requests a user
    reviews. */
module Users {
  import opened Domain
  import opened Seqs
  import opened Entities
  import opened Ports

  /** Every pull request in the review list is a stored one that lists the user as a
      reviewer, and every such stored one is in the list (without its reviewers). */
  lemma {:induction false} ReviewedByMembership(rows: seq<PullRequestRow>, userId: UserID, p: PullRequestRow)
    ensures p in ReviewedBy(rows, userId) <==> exists q :: q in rows && userId in q.reviewers && p == Unloaded(q)
  {
    var hits := Filter(rows, (q: PullRequestRow) => userId in q.reviewers);
    if p in ReviewedBy(rows, userId) {
      var k :| 0 <= k < |hits| && UnloadAll(hits)[k] == p;
      FilterMembership(rows, (q: PullRequestRow) => userId in q.reviewers, hits[k]);
    }
    if q :| q in rows && userId in q.reviewers && p == Unloaded(q) {
      FilterMembership(rows, (q: PullRequestRow) => userId in q.reviewers, q);
      var k :| 0 <= k < |hits| && hits[k] == q;
      assert UnloadAll(hits)[k] == p;
    }
  }

  class UserService {
    const users: UserRepository
    const pullRequests: PullRequestRepository

    constructor (users: UserRepository, pullRequests: PullRequestRepository)
      ensures this.users == users && this.pullRequests == pullRequests
    {
      this.users := users;
      this.pullRequests := pullRequests;
    }

    /** SetActiveStatus: exactly what the repository's SetIsActive answers, with the
        zero user on every error. */
    method SetActiveStatus(id: UserID, flag: bool) returns (user: User, err: Option<Error>)
      modifies users
      ensures UserSetIsActive(id) in users.faults ==>
        user == ZeroUser && err == Some(users.faults[UserSetIsActive(id)]) && users.rows == old(users.rows)
      ensures UserSetIsActive(id) !in users.faults ==> users.rows == SetActive(old(users.rows), id, flag)
      ensures UserSetIsActive(id) !in users.faults && UserRowsAffected(id) in users.faults ==>
        user == ZeroUser && err == Some(users.faults[UserRowsAffected(id)])
      ensures (UserSetIsActive(id) !in users.faults && UserRowsAffected(id) !in users.faults &&
        FindUser(old(users.rows), id).None?) ==>
        user == ZeroUser && err == Some(UserNotFound) && users.rows == old(users.rows)
      ensures (UserSetIsActive(id) !in users.faults && UserRowsAffected(id) !in users.faults &&
        FindUser(old(users.rows), id).Some? && UserGetByID(id) in users.faults) ==>
        user == ZeroUser && err == Some(users.faults[UserGetByID(id)])
      ensures (UserSetIsActive(id) !in users.faults && UserRowsAffected(id) !in users.faults &&
        FindUser(old(users.rows), id).Some? && UserGetByID(id) !in users.faults) ==>
        user == FindUser(old(users.rows), id).value.(isActive := flag) && err == None &&
        FindUser(users.rows, id) == Some(user)
      ensures old(users.Valid()) ==> users.Valid()
    {
      SetActiveFinds(users.rows, id, flag);
      var r := users.SetIsActive(id, flag);
      if r.Err? {
        return ZeroUser, Some(r.error);
      }
      return r.value, None;
    }

    /** GetUserReviews: the pull requests reviewed by a known user; the review list is
        not read when the user lookup fails. */
    method GetUserReviews(id: UserID) returns (reviews: seq<PullRequestRow>, err: Option<Error>)
      modifies users, pullRequests
      ensures users.rows == old(users.rows) && pullRequests.rows == old(pullRequests.rows)
      ensures users.ByID(id).Err? ==>
        reviews == [] && err == Some(users.ByID(id).error) && pullRequests.log == old(pullRequests.log)
      ensures users.ByID(id).Ok? && PRGetByReviewer(id) in pullRequests.faults ==>
        reviews == [] && err == Some(pullRequests.faults[PRGetByReviewer(id)])
      ensures users.ByID(id).Ok? && PRGetByReviewer(id) !in pullRequests.faults ==>
        reviews == ReviewedBy(pullRequests.rows, id) && err == None
    {
      var user := users.GetByID(id);
      if user.Err? {
        return [], Some(user.error);
      }
      var listed := pullRequests.GetByReviewer(id);
      if listed.Err? {
        return [], Some(listed.error);
      }
      return listed.value, None;
    }
  }
}

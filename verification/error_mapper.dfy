/** The translation of service errors into HTTP replies: a first-match table over
    `errors.Is` tests, falling back to an internal error. */
module ErrorMapper {
  import opened Domain

  const StatusConflict := 409
  const StatusNotFound := 404
  const StatusInternalServerError := 500

  datatype ErrorBody = ErrorBody(code: string, message: string)

  datatype Reply = Reply(status: int, body: ErrorBody)

  const PRExistsReply := Reply(StatusConflict, ErrorBody("PR_EXISTS", "PR id already exists"))
  const TeamExistsReply := Reply(StatusConflict, ErrorBody("TEAM_EXISTS", "team_name already exists"))
  const PRMergedReply := Reply(StatusConflict, ErrorBody("PR_MERGED", "cannot reassign on merged PR"))
  const NoCandidateReply := Reply(StatusConflict, ErrorBody("NO_CANDIDATE", "no active replacement candidate in team"))
  const NotAssignedReply := Reply(StatusConflict, ErrorBody("NOT_ASSIGNED", "reviewer is not assigned to this PR"))
  const AuthorNotActiveReply := Reply(StatusConflict, ErrorBody("AUTHOR_NOT_ACTIVE", "user can not create PR with false active status"))
  const NotFoundReply := Reply(StatusNotFound, ErrorBody("NOT_FOUND", "resource not found"))
  const InternalErrorReply := Reply(StatusInternalServerError, ErrorBody("INTERNAL_ERROR", "internal server error"))

  /** ToHTTPError: the cases in switch order, each an `errors.Is` test. */
  function ToHTTPError(e: Error): (r: Reply)
    ensures r.status in {StatusConflict, StatusNotFound, StatusInternalServerError}
  {
    if Is(e, PRExists) then PRExistsReply
    else if Is(e, TeamExists) then TeamExistsReply
    else if Is(e, PRMerged) then PRMergedReply
    else if Is(e, NoCandidate) then NoCandidateReply
    else if Is(e, NotAssigned) then NotAssignedReply
    else if Is(e, AuthorNotActive) then AuthorNotActiveReply
    else if Is(e, UserNotFound) || Is(e, TeamNotFound) || Is(e, PRNotFound) then NotFoundReply
    else InternalErrorReply
  }

  /** The same table written per innermost cause, with no ordering between cases. */
  function ReplyFor(root: Error): Reply
  {
    match root
    case PRExists => PRExistsReply
    case TeamExists => TeamExistsReply
    case PRMerged => PRMergedReply
    case NoCandidate => NoCandidateReply
    case NotAssigned => NotAssignedReply
    case AuthorNotActive => AuthorNotActiveReply
    case UserNotFound => NotFoundReply
    case TeamNotFound => NotFoundReply
    case PRNotFound => NotFoundReply
    case _ => InternalErrorReply
  }

  /** The reply depends only on the innermost cause: since at most one sentinel can be
      the innermost cause, the switch order never decides between two matching cases. */
  lemma ToHTTPErrorByRoot(e: Error)
    ensures ToHTTPError(e) == ReplyFor(Root(e))
  {
    IsMeansRoot(e, PRExists);
    IsMeansRoot(e, TeamExists);
    IsMeansRoot(e, PRMerged);
    IsMeansRoot(e, NoCandidate);
    IsMeansRoot(e, NotAssigned);
    IsMeansRoot(e, AuthorNotActive);
    IsMeansRoot(e, UserNotFound);
    IsMeansRoot(e, TeamNotFound);
    IsMeansRoot(e, PRNotFound);
  }

  /** Wrapping with `%w` (as the transaction manager does) never changes the reply. */
  lemma WrappedMapsLikeCause(message: string, cause: Error)
    ensures ToHTTPError(Wrapped(message, cause)) == ToHTTPError(cause)
  {
    ToHTTPErrorByRoot(Wrapped(message, cause));
    ToHTTPErrorByRoot(cause);
  }

  /** 404 is answered exactly for the three not-found sentinels, however deeply wrapped;
      a missing transaction manager is an internal error. */
  lemma NotFoundExactlyForMissing(e: Error)
    ensures ToHTTPError(e).status == StatusNotFound <==> Is(e, UserNotFound) || Is(e, TeamNotFound) || Is(e, PRNotFound)
    ensures Is(e, TransactionRequired) ==> ToHTTPError(e) == InternalErrorReply
  {
    ToHTTPErrorByRoot(e);
    IsMeansRoot(e, UserNotFound);
    IsMeansRoot(e, TeamNotFound);
    IsMeansRoot(e, PRNotFound);
    IsMeansRoot(e, TransactionRequired);
  }

  /** Conflicts are exactly the six business-rule sentinels, each with its own code. */
  lemma ConflictsAreBusinessRules(e: Error)
    ensures ToHTTPError(e).status == StatusConflict <==>
      Root(e) in {PRExists, TeamExists, PRMerged, NoCandidate, NotAssigned, AuthorNotActive}
    ensures ToHTTPError(e).body.code == "INTERNAL_ERROR" <==> ToHTTPError(e).status == StatusInternalServerError
  {
    ToHTTPErrorByRoot(e);
  }
}

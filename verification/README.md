# pr-service reviewer assignment, in Dafny

This project models the core of `pr-service`, a small Go HTTP service that assigns
reviewers to pull requests inside teams:

- **The pull-request entity.** A pull request is OPEN, then MERGED. It holds at most two
  reviewers. The author is never one of them and no reviewer appears twice. A merge time
  is set exactly when the status is MERGED. `AddReviewers` is a greedy fill over a
  candidate list. `ReassignReviewer` swaps one reviewer in place after checks made in a
  fixed order. `Merge` is idempotent.
- **The pull-request service.**
  - `Create` checks, in order:
    1. that the pull request does not exist;
    2. that the author is known;
    3. that the author's team is known;
    4. that the author is active;
    5. that the team's members can be read.

    It then shuffles the active team mates and lets the entity pick up to two of them.
  - `Merge` merges and writes the status back.
  - `ReassignReviewer` picks a random replacement among the active team mates who are
    neither the author, nor the replaced reviewer, nor already reviewing.
- **The team, user and statistics services.** Guard-then-act sequences over the
  repositories. The statistics service counts over one snapshot of the data.
- **Error mapping.** A first-match `errors.Is` table from service errors to HTTP replies.
- **The duplicate-user-ID check** the team handler applies to a request.

Modelling choices:

- The three repositories are classes over sequences of rows. Each repository also keeps:
  - a log of the calls made on it, so a contract can say that a step did not happen;
  - a fixed fault table. A call listed there fails with the listed error instead of
    reaching the rows, standing in for an unreachable database.
- Go's `errors` package is modelled by the `Error` datatype in `Domain`:
  - `Wrapped` stands for `fmt.Errorf` with `%w`;
  - `Is` follows the cause chain;
  - `Root` is the innermost cause.
- The transaction manager's `Do` wraps a failing operation's error as
  "operation failed: %w". A nil transaction manager is the `hasTxManager` flag.
- The clock is a `now` parameter.
- The random source is a stream of draws. `Intn(n)` consumes one draw and yields it modulo
  `n`. `Shuffle` is a Fisher-Yates pass over an array whose swaps go through `Intn`.

Go's nil slices are the empty sequence. The only exception is `AddReviewers`, whose nil
result is `None`. A nil `*PullRequest` is `null`. The zero `Team{}` and `User{}` are
`ZeroTeam` and `ZeroUser`.

A status text other than OPEN or MERGED (the zero entity's "" among them) is kept as
`Unrecognised`. Its text can never be one of the two known values.

## Model

| member | source | states |
|---|---|---|
| Domain.Root | internal/infrastructure/db/tx_manager.go:31 | following the `%w` chain always ends at an error that wraps nothing |
| Domain.Is | internal/api/mappers/error_mappers/error_mapper.go:14 | `errors.Is`: an error matches itself; an unwrapped error matches only itself; a match against a non-wrapper target means that target is the innermost cause (the converse is Domain.IsMeansRoot) |
| Domain.IsMeansRoot | internal/api/mappers/error_mappers/error_mapper.go:14 | for a non-wrapper target, `errors.Is` holds exactly when the innermost cause is that target |
| Domain.AtMostOneRootMatches | internal/api/mappers/error_mappers/error_mapper.go:13-79 | two different sentinels never both match one error, so the order of the switch cases never picks between two matching cases |
| Entities.StatusText | internal/domain/entities/pull_request.go:10-14 | the text is "OPEN" exactly for OPEN and "MERGED" exactly for MERGED |
| Entities.StatusTextInjective | internal/domain/entities/pull_request.go:10-14 | two statuses with the same text are the same status |
| Entities.GreedyKeepsReviewersDistinct | internal/domain/entities/pull_request.go:72-85 | the reviewers the fill appends are candidates; none is the author or already present; none is taken twice, even when the candidates repeat an ID; at most the free room of them is taken |
| Entities.GreedyCount | internal/domain/entities/pull_request.go:72-85 | the fill takes exactly min(room, number of distinct eligible candidate IDs) |
| Entities.SwapKeepsReviewersOk | internal/domain/entities/pull_request.go:114-119 | putting an ID that is not the author and not already a reviewer at one position keeps the reviewer invariant |
| Entities.PullRequest.constructor | internal/domain/entities/pull_request.go:31-40 | NewPullRequest: fields copied from the arguments, OPEN, no reviewers, no merge time, invariant established |
| Entities.PullRequest.Load | internal/infrastructure/postgres/repositories/pull_request_repository.go:87-135 | the entity built from a stored row carries exactly that row's fields and reviewer list |
| Entities.PullRequest.SetReviewers | internal/domain/entities/pull_request.go:94-96 | installs the list unchecked; status and merge time untouched; the invariant afterwards holds exactly when the list obeys the reviewer rules |
| Entities.PullRequest.Reviewers | internal/domain/entities/pull_request.go:42-47 | returns a new array holding the reviewer list |
| Entities.PullRequest.IsReviewer | internal/domain/entities/pull_request.go:49-57 | true exactly when the ID is in the reviewer list |
| Entities.PullRequest.IsMerged | internal/domain/entities/pull_request.go:59-61 | under the invariant, "merged" is exactly "a merge time is recorded" |
| Entities.PullRequest.IsFullyAssigned | internal/domain/entities/pull_request.go:63-65 | under the invariant, "fully assigned" is exactly "no free room left" |
| Entities.PullRequest.AppendEligible | internal/domain/entities/pull_request.go:75-85 | the loop appends exactly the greedy fill for the given limit to the reviewer list, and returns it; status and merge time untouched |
| Entities.PullRequest.AddReviewers | internal/domain/entities/pull_request.go:67-92 | merged, full or no candidates: nothing changes and nil is returned; a list already longer than two makes the negative slice capacity panic, reported with nothing changed (never under the invariant); otherwise the old list is a prefix of the new one, and the appended suffix is the greedy fill and is what is returned (nil when empty); status and merge time untouched; invariant preserved |
| Entities.PullRequest.ReassignReviewer | internal/domain/entities/pull_request.go:98-123 | first failing check wins (merged → PRMerged, old ID not assigned → NotAssigned, new ID author or already assigned → NoCandidate), with the list unchanged on failure; on success the first occurrence of the old ID is replaced and nothing else changes; invariant preserved; the final NotAssigned return is unreachable |
| Entities.PullRequest.Merge | internal/domain/entities/pull_request.go:125-132 | afterwards MERGED; the first merge records the time, a later one keeps the first time; reviewers untouched; invariant preserved |
| Ports.UpsertFacts | internal/infrastructure/postgres/repositories/user_repository.go:119-140 | insert-or-update of one user keeps IDs unique, stores that user under its ID, and leaves every other ID's row as it was |
| Ports.UpsertFinds | internal/infrastructure/postgres/repositories/user_repository.go:119-140 | after one insert-or-update the user is found under its ID, every other ID is found as before, and no row other than that user is new |
| Ports.UpsertKeepsUnique | internal/infrastructure/postgres/repositories/user_repository.go:119-140 | one insert-or-update keeps user IDs unique, as the ON CONFLICT (id) clause does |
| Ports.UpsertAllStoresMembers | internal/infrastructure/postgres/repositories/user_repository.go:119-140 | after the upsert every member is stored under its ID on the given team, and IDs stay unique |
| Ports.UpsertAllKeepsOthers | internal/infrastructure/postgres/repositories/user_repository.go:119-140 | users not named in the upsert are left as they were |
| Ports.SetActiveFinds | internal/infrastructure/postgres/repositories/user_repository.go:142-165 | setting the flag keeps IDs unique, and the stored user afterwards is the old one with the new flag |
| Ports.OnTeamMembership | internal/infrastructure/postgres/repositories/user_repository.go:53-89 | a user is listed for a team exactly when it is stored with that team name |
| Ports.UserRepository.GetByID | internal/infrastructure/postgres/repositories/user_repository.go:31-51 | answers the stored user, UserNotFound when absent, or the fault; rows untouched; the call is logged |
| Ports.UserRepository.GetUsersByTeam | internal/infrastructure/postgres/repositories/user_repository.go:53-89 | answers the users of that team in storage order, or the fault |
| Ports.UserRepository.GetAll | internal/infrastructure/postgres/repositories/user_repository.go:91-117 | answers every user, or the fault |
| Ports.UserRepository.UpsertMembers | internal/infrastructure/postgres/repositories/user_repository.go:119-140 | writes every member onto the team, overwriting username, team and active flag; unique IDs preserved; the fault leaves the rows untouched; an empty member list runs no statement, so it neither fails nor changes anything |
| Ports.UserRepository.UpsertFault | internal/infrastructure/postgres/repositories/user_repository.go:120-139 | the upsert fails exactly when there is at least one member and the store is failing for that team |
| Ports.UserRepository.SetIsActive | internal/infrastructure/postgres/repositories/user_repository.go:142-165 | a failing update writes nothing and returns its error; once the update ran, only that user's flag is changed, even when what follows fails; then, in order: a failing affected-row count returns its error, no affected row returns UserNotFound, and the read back by GetByID returns its error or the user with the new flag |
| Ports.TeamRepository.Create | internal/infrastructure/postgres/repositories/team_repository.go:31-47 | appends the team name, refusing a name already stored; unique names preserved |
| Ports.TeamRepository.GetByName | internal/infrastructure/postgres/repositories/team_repository.go:49-69 | answers the team when the name is stored, TeamNotFound otherwise, or the fault |
| Ports.TeamRepository.GetAll | internal/infrastructure/postgres/repositories/team_repository.go:71-97 | answers one team per stored name, in order, or the fault |
| Ports.PullRequestRepository.Create | internal/infrastructure/postgres/repositories/pull_request_repository.go:31-65 | appends the pull request with its reviewers, refusing an ID already stored; unique IDs preserved |
| Ports.PullRequestRepository.Save | internal/infrastructure/postgres/repositories/pull_request_repository.go:67-85 | writes only the status and merge time of the row with that ID |
| Ports.PullRequestRepository.GetByID | internal/infrastructure/postgres/repositories/pull_request_repository.go:87-135 | a new entity equal to the stored row, PRNotFound when absent, or the fault |
| Ports.PullRequestRepository.GetByReviewer | internal/infrastructure/postgres/repositories/pull_request_repository.go:137-172 | the stored pull requests that list the user as reviewer, without their reviewer lists, or the fault |
| Ports.PullRequestRepository.GetAll | internal/infrastructure/postgres/repositories/pull_request_repository.go:174-200 | every stored pull request without its reviewer list, or the fault |
| Ports.PullRequestRepository.ReassignReviewer | internal/infrastructure/postgres/repositories/pull_request_repository.go:202-218 | rewrites every matching reviewer row of that pull request, silently doing nothing when none matches |
| Ports.ReplaceAllIsSingleSwap | internal/infrastructure/postgres/repositories/pull_request_repository.go:202-218 | on a duplicate-free reviewer list, the store's rewrite of every match equals the entity's replacement of the first occurrence |
| Ports.FindAfterSwap | internal/infrastructure/postgres/repositories/pull_request_repository.go:202-218 | after the rewrite, reading that pull request back sees its reviewer rows rewritten; other pull requests read as before |
| Ports.RewritesKeepIds | internal/infrastructure/postgres/repositories/pull_request_repository.go:67-85 | the status write and the reviewer rewrite keep the stored IDs unique |
| Ports.Do | internal/infrastructure/db/tx_manager.go:19-39 | a successful operation commits with no error; a failing one comes back wrapped, a different error for which `errors.Is` still finds the original and whose innermost cause is the original's |
| Ports.Pick | internal/infrastructure/providers/random.go:24-26 | the index drawn for Intn(n) is in [0, n) |
| Ports.RandomProvider.Intn | internal/infrastructure/providers/random.go:24-26 | yields the next draw's index in [0, n) and consumes that draw |
| Ports.RandomProvider.Shuffle | internal/infrastructure/providers/random.go:20-22 | the array afterwards is a permutation of the array before |
| PullRequests.CreatePoolMembership | internal/app/services/pull_request_service.go:181-191 | a user is a creation candidate exactly when it is an active team member other than the author |
| PullRequests.ReassignPoolMembership | internal/app/services/pull_request_service.go:193-211 | a user is a replacement candidate exactly when it is an active team member and is neither the author, nor the replaced reviewer, nor any current reviewer |
| PullRequests.CreatePoolIds | internal/app/services/pull_request_service.go:72-74 | an ID is offered to the fill exactly when an active non-author team member has it |
| PullRequests.PermutedEligible | internal/app/services/pull_request_service.go:75-79 | shuffling the candidate IDs does not change which IDs are eligible |
| PullRequests.ToUserIDs | internal/app/services/pull_request_service.go:213-221 | a new array of the same length holding each user's ID at that user's position |
| PullRequests.FilterActiveUsersExcludeAuthor | internal/app/services/pull_request_service.go:181-191 | returns exactly the active members other than the author, in their original order |
| PullRequests.FilterActiveUsersExcludeAuthorAndReviewer | internal/app/services/pull_request_service.go:193-211 | returns exactly the replacement candidates, in their original order |
| PullRequests.PullRequestService.Create | internal/app/services/pull_request_service.go:38-94 | no transaction manager → TransactionRequired and no repository call; otherwise the first failing check's error, wrapped by Do, with a nil result and nothing stored; on success an OPEN pull request created at `now`, with reviewers drawn from the active non-author team members, min(2, distinct candidate IDs) of them (zero for an empty pool), invariant holding, and appended to the store |
| PullRequests.PullRequestService.CreateOperation | internal/app/services/pull_request_service.go:45-87 | the transaction body: the first failing check in source order, where any pull-request lookup error counts as "absent" and any author lookup error becomes UserNotFound; on success the stored pull request as above |
| PullRequests.PullRequestService.AssignReviewers | internal/app/services/pull_request_service.go:72-80 | the new pull request keeps its invariant, gets only candidate IDs, and gets min(2, distinct non-author candidate IDs) of them |
| PullRequests.PullRequestService.Merge | internal/app/services/pull_request_service.go:96-109 | a lookup or save error is passed on with a nil result; otherwise the returned pull request is the stored one MERGED (first merge time kept), and only its status and merge time are written |
| PullRequests.PullRequestService.ReassignReviewer | internal/app/services/pull_request_service.go:111-179 | no transaction manager → TransactionRequired, an empty new ID and no repository call; otherwise the first failing check's error, wrapped by Do, with nothing changed; on success the new reviewer is `pool[Intn(len(pool))]`, it is active, on the author's team, not the author, not the old reviewer and not a current reviewer, the store and the returned pull request have the old reviewer replaced, and a well-formed reviewer list stays well-formed |
| PullRequests.PullRequestService.DrawAndSwap | internal/app/services/pull_request_service.go:158-169 | the replacement is `ids[Intn(len(ids))]` of the candidates; an update fault is returned with nothing stored; otherwise the store has the old reviewer rewritten, and the pull request read back is the stored one with that rewrite |
| PullRequests.StoredSwapKeepsReviewersOk | internal/infrastructure/postgres/repositories/pull_request_repository.go:202-218 | on a well-formed reviewer list, the store's rewrite of an assigned reviewer to an eligible new ID is the entity's single swap and keeps the reviewer rules |
| PullRequests.PullRequestService.ReassignOperation | internal/app/services/pull_request_service.go:119-172 | the transaction body: PR lookup error, merged, unknown old reviewer (UserNotFound), not assigned, author, team and member lookup errors, empty pool (NoCandidate), update error, in that order; success as above |
| Teams.TeamService.Create | internal/app/services/team_service.go:32-67 | no transaction manager → zero team, no members, TransactionRequired, no repository call; an existing team → TeamExists; a lookup error other than TeamNotFound is passed on with nothing created; otherwise team insert, member upsert and re-read in order, and on success the team and exactly the re-read member list, which contains every requested member; any failure returns the zero team and no members, and the insert or upsert done before it stays |
| Teams.TeamService.CreateOperation | internal/app/services/team_service.go:40-64 | the transaction body, with the error of the first failing step and the writes done before it |
| Teams.TeamService.GetByName | internal/app/services/team_service.go:69-81 | a team lookup error is returned with the zero team and no members, and the members are then not read; otherwise the team with the repository's member list as given, or the member read's error |
| Users.ReviewedByMembership | internal/infrastructure/postgres/repositories/pull_request_repository.go:137-172 | a pull request is in a user's review list exactly when a stored one lists the user as reviewer |
| Users.UserService.SetActiveStatus | internal/app/services/user_service.go:28-30 | exactly the repository's answer, case by case: the updated user with the flag written, or the zero user with the update error (nothing written), the affected-row count error, UserNotFound, or the read-back error (flag already written) |
| Users.UserService.GetUserReviews | internal/app/services/user_service.go:32-44 | an unknown user's lookup error with an empty list and no review-list read; otherwise the repository's review list as given, or its error with an empty list |
| Stats.OpenAndMergedWithinTotal | internal/app/services/stats_service.go:56-78 | open plus merged never exceeds the total |
| Stats.ActiveWithinMembers | internal/app/services/stats_service.go:110-117 | a team's active members never exceed its members |
| Stats.SummaryBounds | internal/app/services/stats_service.go:44-51 | one user entry per user and one team entry per team, in input order; one assignment per pull request; open plus merged within the total; per team, active within members and the pull-request count within the total |
| Stats.EmptySnapshot | internal/app/services/stats_service.go:44-51 | no users, teams or pull requests give zero counts and empty lists |
| Stats.CreditedAtMostOnce | internal/app/services/stats_service.go:80-100 | with unique user IDs, the per-user "created" counts add up to at most the number of pull requests |
| Stats.CountOpenPullRequests | internal/app/services/stats_service.go:56-66 | the number of OPEN pull requests |
| Stats.CountMergedPullRequests | internal/app/services/stats_service.go:68-78 | the number of MERGED pull requests |
| Stats.CalculateUserStats | internal/app/services/stats_service.go:80-100 | one entry per user, in order, each with the number of pull requests that user authored |
| Stats.CalculateTeamStats | internal/app/services/stats_service.go:102-132 | one entry per team, in order, with its member count, its active member count, and the number of pull requests whose author is on the team (each counted once) |
| Stats.AuthorOnTeamSearch | internal/app/services/stats_service.go:119-126 | true exactly when some user with the author's ID is on the team |
| Stats.CalculateReviewAssignments | internal/app/services/stats_service.go:134-149 | one entry per pull request, in order, with ID, name, author and status text copied |
| Stats.StatsService.GetStats | internal/app/services/stats_service.go:28-53 | users, then teams, then pull requests are read; the first failing read ends the call with its error, no result, and no later read; otherwise the statistics of that snapshot |
| ErrorMapper.ToHTTPError | internal/api/mappers/error_mappers/error_mapper.go:12-80 | total: every error gets 409, 404 or 500 |
| ErrorMapper.ToHTTPErrorByRoot | internal/api/mappers/error_mappers/error_mapper.go:13-79 | the reply depends only on the innermost cause, through an order-free per-sentinel table |
| ErrorMapper.WrappedMapsLikeCause | internal/api/mappers/error_mappers/error_mapper.go:14-78 | a `%w`-wrapped error maps like the error it wraps |
| ErrorMapper.NotFoundExactlyForMissing | internal/api/mappers/error_mappers/error_mapper.go:62-70 | 404 exactly for UserNotFound, TeamNotFound and PRNotFound, however wrapped; TransactionRequired gets the 500 INTERNAL_ERROR reply |
| ErrorMapper.ConflictsAreBusinessRules | internal/api/mappers/error_mappers/error_mapper.go:14-60 | 409 exactly for the six business-rule sentinels; INTERNAL_ERROR is the code exactly of the 500 replies |
| TeamHandler.HasDuplicateUserIDs | internal/api/handlers/team_handler.go:83-94 | true exactly when two positions carry the same user ID; only the user ID is compared |
| TeamHandler.DuplicatesIffFewerIds | internal/api/handlers/team_handler.go:83-94 | a member list has a repeated ID exactly when it names fewer distinct IDs than entries |

## Left out

- SQL, the database driver and the query builder are not modelled. Rows live in sequences.
  Every other repository failure (building a query, scanning a row, iterating rows) is one
  fault per call. `SetIsActive` has a second fault, for reading the affected-row count
  after its update has run.
- `UpsertMembers` and the reviewer inserts of the pull-request `Create` loop over
  statements that can fail one at a time. The model makes each call all-or-nothing, so a
  half-done upsert or a pull request stored without some of its reviewers is not
  represented.
- PullRequests.PullRequestService.ReassignReviewer: faults are keyed by the call and its
  arguments. The read back of the pull request after the update is the same call as the
  first read, which succeeded, so the model cannot make it fail on its own. The error
  path at pull_request_service.go:166-169 is therefore unreachable in the model.
- Ports.Do: a failing `BeginTx` or `Commit` and a failing rollback are not modelled; `Do`
  always reaches the operation.
- Atomicity. The operation runs with the plain context while the repositories use the
  database handle directly, so rollback undoes nothing, and the model makes no atomicity
  claim. Teams.TeamService.Create states instead that a team inserted before a failing
  upsert stays.
- SQL result order is unspecified. The model lists rows in storage order.
- Concurrency: two creates or two reassignments racing each other.
- Timestamps are opaque integers. RFC 3339 formatting and parsing, including the zero
  entity that a parse failure yields, are left to the mappers, which are not part of this
  model. The loader's mapping of stored status texts is not modelled either.
- Entities.PullRequest.SetReviewers: Go stores the caller's slice without copying it, so
  the caller and the entity share the backing array. The model stores a value, so that
  aliasing is not represented.
- Teams.TeamService.Create: the Go return statement reads the result variables in the
  same statement as the `Do` call that sets them. Go leaves the order of those reads
  unspecified. The model takes the order the gc compiler uses: `Do` runs first.
- Ports.RandomProvider.Intn: `math/rand`'s distribution is not modelled. Any stream of
  draws is allowed, so every index in range is possible.
- Go's `int` counters are unbounded `nat`s. They are bounded by list lengths, so no
  overflow is reachable.
- The HTTP handlers are not part of this model, apart from `hasDuplicateUserIDs`. Neither
  are the routes, the DTO mappers, configuration or start-up.

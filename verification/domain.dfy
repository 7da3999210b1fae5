/** Identifiers, the User and Team values, and the error values of the service.
    Errors follow Go's `errors` package: a sentinel is a distinct value, `fmt.Errorf`
    with `%w` wraps a cause, and `errors.Is` walks the chain of causes. */
module Domain {

  type UserID = string
  type TeamName = string
  type PullRequestID = string

  /** An instant from the injected time source; the model only copies and compares them. */
  type Timestamp = int

  datatype Option<T> = None | Some(value: T)

  /** The outcome of a repository read: the value, or the error the port returned. */
  datatype Result<T> = Ok(value: T) | Err(error: Error)

  datatype User = User(id: UserID, username: string, team: TeamName, isActive: bool)

  /** The zero `entities.User{}` that the repositories return beside an error. */
  const ZeroUser := User("", "", "", false)

  datatype Team = Team(name: TeamName)

  /** The zero `entities.Team{}`. */
  const ZeroTeam := Team("")

  datatype Error =
    // the sentinels of the domain package
    | TeamExists
    | PRExists
    | PRMerged
    | NotAssigned
    | NoCandidate
    | UserNotFound
    | TeamNotFound
    | PRNotFound
    | AuthorNotActive
      // the application's "no transaction manager configured" sentinel
    | TransactionRequired
      // any other error that wraps nothing (driver failures, `fmt.Errorf` with `%v`)
    | Opaque(message: string)
      // an error built by `fmt.Errorf` with `%w`: a message around a cause
    | Wrapped(message: string, cause: Error)

  /** The innermost cause: what `errors.Unwrap` reaches when applied until it yields nil. */
  function Root(e: Error): (r: Error)
    ensures !r.Wrapped?
  {
    if e.Wrapped? then Root(e.cause) else e
  }

  /** Go's `errors.Is(e, target)`: `e` equals `target`, or some cause of `e` does. */
  predicate Is(e: Error, target: Error): (b: bool)
    ensures e == target ==> b
    ensures !e.Wrapped? ==> (b <==> e == target)
    ensures b && !target.Wrapped? ==> Root(e) == target
  {
    e == target || (e.Wrapped? && Is(e.cause, target))
  }

  /** For a target that is not itself a wrapper, `errors.Is` asks exactly
      whether the innermost cause is that target. */
  lemma {:induction false} IsMeansRoot(e: Error, target: Error)
    requires !target.Wrapped?
    ensures Is(e, target) <==> Root(e) == target
  {
    if e.Wrapped? {
      IsMeansRoot(e.cause, target);
    }
  }

  /** Two different non-wrapper targets can never both match one error, so the order in
      which a `switch` of `errors.Is` tests them cannot change which case is taken. */
  lemma {:induction false} AtMostOneRootMatches(e: Error, t1: Error, t2: Error)
    requires !t1.Wrapped? && !t2.Wrapped? && t1 != t2
    ensures !(Is(e, t1) && Is(e, t2))
  {
    IsMeansRoot(e, t1);
    IsMeansRoot(e, t2);
  }
}

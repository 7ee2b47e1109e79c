/** The provider-neutral authorization boundary. */
module Forge {
  import opened GoText

  datatype Permission = NoPermission | Read | Write {
    /** Position in the source's ordering of permissions. */
    function Level(): nat {
      match this case NoPermission => 0 case Read => 1 case Write => 2
    }

    predicate AtLeast(other: Permission) {
      Level() >= other.Level()
    }
  }

  datatype Authorization = Authorization(repositoryID: int64, permission: Permission, canonicalName: string)

  datatype Error =
    | Unauthenticated
    | NotFound
    | Forbidden
    | RateLimited
    | Unavailable
    | RetryAfter(delay: int64)      // a rate limit with a delay in nanoseconds
    | Other                         // any error that is none of the above

  /** What an authorization is asked for: a bearer token and the repository path. */
  datatype Request = Request(token: string, owner: string, repository: string)
}

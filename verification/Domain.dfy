/** Value types of the verified core (crates/domain) and the errors its layers raise. */
module Domain {

  datatype User = User(id: int, handle: string)

  datatype Tweet = Tweet(id: int, author: string, text: string, createdAt: int)

  datatype Follow = Follow(from: string, to: string)

  /** DomainError, StoreError and ServiceError in one type: the service's conversions only rename. */
  datatype Error = EmptyHandle | EmptyText | SelfFollow | UnknownUser | DuplicateUser

  datatype Result<+T> = Ok(value: T) | Err(error: Error)

  /** `r?; Ok(v)`: the value once the fallible step has succeeded, its error otherwise. */
  function Then<A, B>(r: Result<A>, v: B): Result<B> {
    match r case Ok(_) => Ok(v) case Err(e) => Err(e)
  }

  /** `Follow::new`: the one public constructor of an edge. */
  function NewFollow(from: string, to: string): Result<Follow> {
    if from == to then Err(SelfFollow) else Ok(Follow(from, to))
  }
}

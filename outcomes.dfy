/** Optional values, the service exceptions, and results that carry either a value or one of them. */
module Outcomes {

  /** A Java reference that may be null. */
  datatype Option<+T> = None | Some(value: T)

  /** The exceptions the photo service raises, the one a single-result repository finder
      raises when more than one row matches, a failing repository delete, and a failing call to
      the binary store. */
  datatype Error =
    | EntityNotFound
    | EntityGetDenied
    | EntityUpdateDenied
    | EntityOwnerChangeDenied
    | EntityOwnerInvalid
    | EntityDeleteDenied
    | PhotoShareDenied
    | PhotoShareTargetInvalid
    | PhotoLikeDenied
    | PhotoUnlikeDenied
    | NonUniqueResult
    | DeleteFailed
    | StorageFailed

  /** A value returned normally, or the exception thrown instead. */
  datatype Result<+T> = Ok(value: T) | Err(error: Error)
}

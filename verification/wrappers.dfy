/** Failure-compatible wrappers used for the partial decoders (Option) and for
    the operations that raise in the original program (Result). */
module Wrappers {

  datatype Option<+T> = None | Some(value: T) {
    predicate IsFailure() {
      None?
    }

    function PropagateFailure<U>(): Option<U>
      requires None?
    {
      None
    }

    function Extract(): T
      requires Some?
    {
      value
    }
  }

  /** The exceptions the original code raises, one constructor per distinct message. */
  datatype Error =
    | NotFound           // "Key not found in B-Tree", "User not found with email"
    | AlreadyExists      // "Email already registered"
    | NoQuests           // "No quests available"
    | InvalidArgument    // std::invalid_argument from enum parsing
    | MissingHeader      // "Authorization header missing"
    | InvalidFormat      // "Invalid authorization format"
    | TokenNoDot         // "Invalid token format - no dot found"
    | TokenNoColon       // "Invalid token payload - no colon found"
    | TokenBadExpiry     // "Invalid expiry timestamp in token"
    | Expired            // "Token expired"
    | UnknownPlayerOrQuest   // "Invalid player or quest"
    | QuestAlreadyCompleted  // "Quest already completed"
    | AlreadyClaimed     // "Daily reward already claimed today"
    | Validation(field: string, code: string)  // ValidationException: field and code

  datatype Result<+T> = Success(value: T) | Failure(error: Error) {
    predicate IsFailure() {
      Failure?
    }

    function PropagateFailure<U>(): Result<U>
      requires Failure?
    {
      Failure(error)
    }

    function Extract(): T
      requires Success?
    {
      value
    }
  }
}

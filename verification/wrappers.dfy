/** Optional values, and the outcome of a collaborator call that may throw. */
module Wrappers {

  datatype Option<+T> = None | Some(value: T)

  /** A promise that either resolves with a value or rejects with an error
      message (`err instanceof Error ? err.message : String(err)`). */
  datatype Try<+T> = Done(value: T) | Threw(message: string)
}

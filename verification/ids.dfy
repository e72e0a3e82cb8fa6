/** Identifiers issued by the database for users and tasks. */
module Ids {

  /** The `_id` of a user document; also the `userId` that owns a task. */
  type UserId = nat

  /** The `_id` of a task document. */
  type TaskId = nat
}

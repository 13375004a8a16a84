/**
 * The task entity of the domain layer (internal/domain/task/entity.go).
 * Ids are unbounded naturals standing for Go's uint64; timestamps are
 * plain integers.
 */
module TaskDomain {

  datatype Task = Task(
    id: nat,
    taskType: int,
    priority: int,
    status: int,
    referenceId: nat,
    retryCount: int,
    maxRetry: int,
    createdAt: int,
    updatedAt: int)

  /** Errors of the task table and the task queue. */
  datatype StoreError =
    | Unavailable   // the database or Redis could not be reached
    | NoRows        // a lookup by id found nothing
    | DuplicateKey  // an insert hit an existing primary key
    | QueueEmpty    // RPOP on an empty list
    | DecodeFailed  // a popped entry is not a task
}

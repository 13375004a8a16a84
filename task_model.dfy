/**
 * The records of the priority-rule engine: tasks, priority adjustment rules,
 * rule groups and the priority adjustment log (internal/model/task.go).
 * Timestamps are plain integers (seconds); Go's `time.Time` is not modelled.
 */
module TaskModel {

  /** Task types. */
  const TypeContentGeneration: string := "content_generation"
  const TypeTranslation: string := "translation"

  /** Task statuses. */
  const StatusPending: string := "pending"
  const StatusRunning: string := "running"
  const StatusCompleted: string := "completed"
  const StatusFailed: string := "failed"
  const StatusPaused: string := "paused"

  /** The four named priorities, low to urgent. */
  const PriorityLow: int := 0
  const PriorityNormal: int := 1
  const PriorityHigh: int := 2
  const PriorityUrgent: int := 3

  /** The bound the HTTP requests put on a priority before it reaches the engine. */
  predicate ValidPriority(p: int) {
    PriorityLow <= p <= PriorityUrgent
  }

  /** A task row. `taskType` and `status` are free strings, as Go's string-typed enums are. */
  datatype Task = Task(
    id: string,
    workId: string,
    batchId: string,
    taskType: string,
    status: string,
    priority: int,
    content: string,
    result: string,
    error: string,
    driver: string,
    retryCount: int,
    maxRetries: int,
    createdAt: int,
    updatedAt: int)

  /**
   * A priority adjustment rule. The four filter columns `workId`, `batchId`,
   * `taskType` and `status` are wildcards when empty; `condition` and
   * `action` are stored text that no code evaluates.
   */
  datatype Rule = Rule(
    id: string,
    name: string,
    description: string,
    condition: string,
    action: string,
    priority: int,
    workId: string,
    batchId: string,
    taskType: string,
    status: string,
    enabled: bool,
    createdAt: int)

  /** One entry of the append-only priority adjustment log. */
  datatype PriorityLog = PriorityLog(
    id: string,
    taskId: string,
    ruleId: string,
    oldPriority: int,
    newPriority: int,
    reason: string,
    createdAt: int)

  /** A rule group: an ordered list of rule ids and an `enabled` flag. */
  datatype RuleGroup = RuleGroup(
    id: string,
    name: string,
    description: string,
    rules: seq<string>,
    enabled: bool)

  /**
   * The errors the in-memory tables can report. MissingWhereClause is gorm's
   * refusal of an UPDATE with no condition at all.
   */
  datatype RepoError = RecordNotFound | DuplicateKey | MissingWhereClause
}

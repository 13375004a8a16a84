# translate-llm task core, modelled in Dafny

This project models the task core of the translate-llm back end, a Go service
that queues content-generation and translation tasks for AI models. It covers:

- **The priority-rule engine** (`internal/repository/task_repository.go`, `internal/service/task_service.go`).
  - Rules carry four optional equality filters: work, batch, task type and status.
  - The applicable rules for a task are the enabled, matching rules, ordered by rule priority, highest first.
  - Rule groups keep an ordered list of rule ids.
  - `adjustTaskPriority` applies the first applicable rule whose priority differs from the task's. It writes the new priority, then appends one adjustment log entry.
  - The repository is a class over in-memory tables: a task map, a rule sequence, a group map and an append-only log.
- **The task lifecycle** (`internal/application/task_service.go`). Create, delete, pause, resume and retry run over a task table and a Redis list used as a FIFO queue (`internal/infrastructure/persistence/task_repository.go`): LPUSH at the head, RPOP at the tail, and remove-by-id through LREM.
- **The message processor's retry rule** (`internal/infrastructure/processor/task_processor.go`): dispatch by message type, and a bounded retry counter with republish.
- **The request middleware** (`internal/interfaces/api/middleware.go`):
  - Bearer-header parsing.
  - The status-to-message mapping.
  - The sliding-window rate limiter over a Redis sorted set, modelled as a map from member to score.
  - Required-field and priority validation.
- **The utilities**:
  - The input validators.
  - The error-to-code mapping.
  - PKCS#7 padding around AES-CBC, as in section 6.3 of RFC 5652.
  - The OSS object-key layout, with Go's `path.Ext`.
  - Log-line formatting and level dispatch.

Each source file that changes state in place is modelled as a class:

- `RuleRepository.TaskRepository`
- `TaskStore.TaskQueue` and `TaskStore.TaskTable`
- `TaskLifecycle.TaskService` and `PriorityService.TaskService`
- `Processor.TaskProcessor`
- `Middleware.RateLimiter`

Each method is proved against specification functions, and those functions carry the lemmas. Pure code is modelled as functions and lemmas.

Failures of the task table, Redis or RabbitMQ are parameters or flags:

- the `available` fields;
- `Fault` (adjustTaskPriority's repository calls), `updateFails`, `redisUp` and `publishOk`;
- a `None` delivery.

The priority-rule repository reports only the errors its tables decide (record not found, duplicate key, a missing WHERE clause); see "## Left out".

The clock, ids and client addresses are parameters too.

| module (file) | source |
|---|---|
| Common (common.dfy) | Option, Result, Outcome, bytes |
| Text (text.dfy) | `strings.HasPrefix`/`Contains`, UTF-8 `len`, ASCII `ToLower`, `path.Ext`, zero-padded decimals |
| TaskModel (task_model.dfy) | internal/model/task.go |
| RuleRepository (rule_repository.dfy) | internal/repository/task_repository.go |
| PriorityService (priority_service.dfy) | internal/service/task_service.go |
| Constants (constants.dfy) | internal/infrastructure/utils/constants.go |
| TaskDomain (task_domain.dfy) | internal/domain/task/entity.go |
| TaskStore (task_store.dfy) | internal/infrastructure/persistence/task_repository.go |
| TaskLifecycle (task_lifecycle.dfy) | internal/application/task_service.go |
| Processor (processor.dfy) | internal/infrastructure/processor/task_processor.go, internal/infrastructure/queue/queue.go |
| Middleware (middleware.dfy) | internal/interfaces/api/middleware.go |
| Validator (validator.dfy) | internal/infrastructure/utils/validator.go |
| ErrorCodes (error_codes.dfy) | internal/infrastructure/utils/error.go |
| Pkcs7 (pkcs7.dfy) | internal/infrastructure/utils/crypto.go |
| ObjectKey (object_key.dfy) | internal/infrastructure/storage/oss_service.go |
| Logger (logger.dfy) | internal/infrastructure/utils/logger.go |

## Model

| member | source | states |
|---|---|---|
| RuleRepository.EvaluateRule | internal/repository/task_repository.go:413-435 | a rule matches iff each of its four filters is empty or equal to the task's field; this is the same as the rule's database query with the enabled flag ignored; no error path exists |
| RuleRepository.QueryMatches | internal/repository/task_repository.go:461-468 | the query keeps exactly the enabled rules whose filters each are empty or equal to the task's, and takes nothing new |
| RuleRepository.Matching | internal/repository/task_repository.go:444-453 | the group filter never returns more rules than it is given |
| RuleRepository.MatchingMembers | internal/repository/task_repository.go:444-453 | the group filter keeps exactly the rules EvaluateRule accepts |
| RuleRepository.KeepMatching | internal/repository/task_repository.go:444-455 | the loop over the fetched rules, appending each rule EvaluateRule accepts, yields exactly Matching |
| RuleRepository.MatchingSnoc | internal/repository/task_repository.go:444-453 | one more rule in the input adds that rule at the end exactly when EvaluateRule accepts it |
| RuleRepository.MatchingSingleton | internal/repository/task_repository.go:450-452 | a single rule is kept exactly when EvaluateRule accepts it |
| RuleRepository.MatchingAppend | internal/repository/task_repository.go:444-453 | the filter distributes over concatenation, so the accepted rules appear in their input order |
| RuleRepository.InsertByPriority | internal/repository/task_repository.go:467 | inserting into a list sorted by descending priority keeps it sorted and adds exactly that rule |
| RuleRepository.SortByPriorityDesc | internal/repository/task_repository.go:467 | `ORDER BY priority DESC`: the result is sorted and a permutation of the input |
| RuleRepository.AddOnce | internal/repository/task_repository.go:368-376 | the id is present afterwards, the old list is kept as a prefix, nothing else is added, and a duplicate-free list stays duplicate-free |
| RuleRepository.Without | internal/repository/task_repository.go:386-394 | every occurrence of the id is removed and the list does not grow |
| RuleRepository.WithoutCounts | internal/repository/task_repository.go:386-394 | every other id keeps its number of occurrences |
| RuleRepository.WithoutSnoc | internal/repository/task_repository.go:387-391 | one more id in the input adds that id at the end exactly when it is not the removed id |
| RuleRepository.WithoutSingleton | internal/repository/task_repository.go:388-390 | a single id is dropped exactly when it is the removed id |
| RuleRepository.WithoutAppend | internal/repository/task_repository.go:386-394 | removal distributes over concatenation, so the kept ids stay in their order |
| RuleRepository.WithoutIdempotent | internal/repository/task_repository.go:380-395 | removing a rule id twice equals removing it once |
| RuleRepository.WithoutNoDuplicates | internal/repository/task_repository.go:380-395 | removal keeps a duplicate-free id list duplicate-free |
| RuleRepository.AddAfterRemove | internal/repository/task_repository.go:361-395 | removing then adding an id puts it at the end of the list |
| RuleRepository.RulesWithIds | internal/repository/task_repository.go:404-408 | the group's rules are exactly the existing rules whose id is listed |
| RuleRepository.RemoveRuleRows | internal/repository/task_repository.go:212-214 | deleting a rule removes exactly the rows with that id, and nothing else |
| RuleRepository.RemoveRuleRowsDistinct | internal/repository/task_repository.go:212-214 | deleting rows keeps the remaining rule ids distinct |
| RuleRepository.UpsertRule | internal/repository/task_repository.go:207-209 | Save stores the rule, leaves every rule with another id as it was, and keeps ids distinct |
| RuleRepository.SetPriorityWhere | internal/repository/task_repository.go:158-190 | the selected tasks get the new priority and gorm's updated_at time; no unselected task and no other column changes; the set of ids stays the same |
| RuleRepository.ConditionIsRuleFilter | internal/repository/task_repository.go:173-190 | the conditional update selects exactly the tasks a rule with the same four filters matches |
| RuleRepository.InsertPending | internal/repository/task_repository.go:150 | inserting into the (priority desc, created_at asc) order keeps it sorted and adds exactly that task |
| RuleRepository.InsertPendingUnique | internal/repository/task_repository.go:146-156 | inserting a new task keeps the list free of repeats and adds exactly that task |
| RuleRepository.Take | internal/repository/task_repository.go:151 | `LIMIT n` yields a prefix of at most n elements, and the whole list when it is shorter |
| RuleRepository.TakeTopK | internal/repository/task_repository.go:146-156 | the first n of a sorted list stay sorted, and every task left out ranks no higher than each task kept |
| RuleRepository.TaskRepository.constructor | internal/repository/task_repository.go:17-27 | the repository starts with empty tables |
| RuleRepository.TaskRepository.GetRuleGroup | internal/repository/task_repository.go:322-328 | returns the stored group, or RecordNotFound exactly when the id is unknown |
| RuleRepository.TaskRepository.GetApplicableRules | internal/repository/task_repository.go:459-473 | exactly the enabled rules that EvaluateRule accepts, sorted by rule priority, highest first |
| RuleRepository.TaskRepository.GetGroupRules | internal/repository/task_repository.go:398-410 | an unknown group is RecordNotFound; otherwise exactly the existing rules whose id the group lists, with dangling ids skipped |
| RuleRepository.TaskRepository.EvaluateRuleGroup | internal/repository/task_repository.go:438-456 | the group's rules that EvaluateRule accepts, in fetched order (Matching with MatchingAppend and MatchingSingleton); neither enabled flag is consulted; unknown group is RecordNotFound |
| RuleRepository.TaskRepository.AddRuleToGroup | internal/repository/task_repository.go:361-377 | an unknown group fails and changes nothing; otherwise an absent id is appended and a present one changes nothing |
| RuleRepository.TaskRepository.RemoveRuleFromGroup | internal/repository/task_repository.go:380-395 | an unknown group fails and changes nothing; otherwise the list becomes Without of the old list: every occurrence of the id is removed and the other ids keep their order (WithoutAppend, WithoutSingleton) |
| RuleRepository.TaskRepository.CreatePriorityRule | internal/repository/task_repository.go:193-195 | insert appends the rule, or fails with DuplicateKey and changes nothing when the id exists |
| RuleRepository.TaskRepository.UpdatePriorityRule | internal/repository/task_repository.go:207-209 | the rules become the upsert of the given rule; no other table changes |
| RuleRepository.TaskRepository.DeletePriorityRule | internal/repository/task_repository.go:212-214 | only the rule rows with that id go; groups keep the dangling id |
| RuleRepository.TaskRepository.UpdatePriority | internal/repository/task_repository.go:158-163 | the task with that id gets the new priority and the update time; no other task, column or table changes |
| RuleRepository.TaskRepository.BatchUpdatePriority | internal/repository/task_repository.go:166-170 | exactly the listed tasks get the new priority and the update time; no log is written |
| RuleRepository.TaskRepository.UpdatePriorityByCondition | internal/repository/task_repository.go:173-190 | with all four filters empty gorm refuses the UPDATE without a WHERE clause and nothing changes; otherwise exactly the tasks matching all non-empty filters get the new priority and the update time; no log is written |
| RuleRepository.TaskRepository.CreatePriorityLog | internal/repository/task_repository.go:248-250 | the entry is appended to the log; no other table changes |
| RuleRepository.TaskRepository.GetPendingTasks | internal/repository/task_repository.go:146-156 | at most `limit` stored tasks, all pending with retries left, without repeats, sorted by priority desc then created_at asc, and no pending task left out ranks above one returned |
| PriorityService.FirstDiffering | internal/service/task_service.go:205-241 | the index of the first rule that matches and differs from the task's priority, with every earlier rule not applicable; None iff no rule applies |
| PriorityService.FirstDifferingAt | internal/service/task_service.go:205-241 | FirstDiffering returns i iff rule i applies and no earlier one does |
| PriorityService.FirstDifferingNone | internal/service/task_service.go:243 | FirstDiffering returns None iff no rule applies |
| PriorityService.AdjustLog | internal/service/task_service.go:223-231 | the log entry records the task id, the rule id, the old priority, the rule's priority and the rule description as reason |
| PriorityService.Adjust | internal/service/task_service.go:190-244 | only the adjusted task's row may change; the log gains at most one entry, with old and new priority different; a successful change always logs; a fetch failure changes nothing |
| PriorityService.TaskService.AdjustTaskPriority | internal/service/task_service.go:190-244 | the effect on tasks and logs is that of Adjust on the applicable rules, a failed rule fetch included; rules and groups are untouched |
| PriorityService.TaskService.ApplyFirstDiffering | internal/service/task_service.go:205-241 | the loop with skip and early return has exactly the effect of Adjust: store write before log append, failure outcomes included |
| PriorityService.TaskService.UpdateTaskPriority | internal/service/task_service.go:336-338 | delegates to UpdatePriority and writes no log |
| PriorityService.TaskService.BatchUpdateTaskPriority | internal/service/task_service.go:341-343 | delegates to BatchUpdatePriority and writes no log |
| PriorityService.TaskService.UpdateTaskPriorityByCondition | internal/service/task_service.go:346-348 | delegates to UpdatePriorityByCondition, passing on its missing-WHERE failure, and writes no log |
| PriorityService.AdjustAppliesFirstDiffering | internal/service/task_service.go:214-234 | when rule i is the first to apply, the task gets rule i's priority and the update time, and exactly one log entry with the recorded fields is appended |
| PriorityService.AdjustFailureOutcomes | internal/service/task_service.go:218-234 | a failed priority write changes neither table and returns an error; a failed log append returns an error with the new priority already written and no log entry |
| PriorityService.AdjustWithoutApplicableRule | internal/service/task_service.go:243 | with no applicable rule neither table changes and the outcome is nil |
| PriorityService.EqualPriorityRuleSkipped | internal/service/task_service.go:209-212 | a matching rule with the task's own priority is skipped and the scan continues with the rest |
| PriorityService.FirstDifferingIsHighest | internal/service/task_service.go:197-241 | over sorted rules, the applied rule has the highest priority among all applicable rules |
| PriorityService.AdjustPreservesLogChanges | internal/service/task_service.go:210-230 | if every log entry records a real change, that stays true after an adjustment |
| PriorityService.AdjustPreservesRange | internal/service/task_service.go:218-220 | rules with priorities in 0..3 keep every task's priority in 0..3 |
| PriorityService.SetPriorityPreservesRange | internal/interfaces/api/task.go:23 | bulk updates with a bounded priority keep every task in 0..3 |
| PriorityService.RepeatedAdjustmentAlternates | internal/service/task_service.go:205-241 | adjustment is not idempotent: two matching rules make a second call move the task back to the other rule's priority |
| TaskStore.Decode | internal/infrastructure/persistence/task_repository.go:84-86 | decoding succeeds exactly on encoded tasks and returns the encoded task |
| TaskStore.OthersCons | internal/infrastructure/persistence/task_repository.go:103 | filtering out a value distributes over a prepended entry |
| TaskStore.OthersOfFree | internal/infrastructure/persistence/task_repository.go:103 | a list without the value is its own filtering |
| TaskStore.RemoveFirst | internal/infrastructure/persistence/task_repository.go:103 | removing up to n copies from the head leaves all other entries in order and n fewer copies |
| TaskStore.LRem | internal/infrastructure/persistence/task_repository.go:103 | LREM with count 0 removes every copy, otherwise up to count copies; other entries keep their order |
| TaskStore.FirstWithId | internal/infrastructure/persistence/task_repository.go:92-106 | the first entry that decodes to the id, all earlier ones not matching; None iff none matches |
| TaskStore.RemoveByIdEffect | internal/infrastructure/persistence/task_repository.go:92-106 | Remove acts only on the first match at index i: LREM with count i of that entry |
| TaskStore.RemoveAbsentId | internal/infrastructure/persistence/task_repository.go:107 | removing an id not in the queue changes nothing |
| TaskStore.DrainPush | internal/infrastructure/persistence/task_repository.go:73-87 | a pushed entry leaves after everything already queued |
| TaskStore.PushedTasksLeaveInOrder | internal/infrastructure/persistence/task_repository.go:73-87 | tasks pushed one by one are popped in the order they were pushed |
| TaskStore.TaskQueue.constructor | internal/infrastructure/persistence/task_repository.go:67-71 | the queue starts empty |
| TaskStore.TaskQueue.Push | internal/infrastructure/persistence/task_repository.go:73-77 | LPUSH prepends the encoded task; it fails and changes nothing when Redis is down |
| TaskStore.TaskQueue.Pop | internal/infrastructure/persistence/task_repository.go:79-87 | RPOP takes the tail entry and decodes it; an empty queue and a down Redis are errors that change nothing |
| TaskStore.TaskQueue.Remove | internal/infrastructure/persistence/task_repository.go:89-108 | the scan skips undecodable entries and acts on the first entry with the id; the new list is RemoveById of the old |
| TaskStore.TaskQueue.GetLength | internal/infrastructure/persistence/task_repository.go:110-112 | the number of queued entries |
| TaskStore.TaskQueue.Clear | internal/infrastructure/persistence/task_repository.go:114-116 | the queue is empty afterwards |
| TaskStore.TaskTable.constructor | internal/infrastructure/persistence/task_repository.go:14-18 | the table starts empty |
| TaskStore.TaskTable.FindByID | internal/infrastructure/persistence/task_repository.go:20-27 | the stored row, or NoRows exactly when the id is absent |
| TaskStore.TaskTable.FindWhere | internal/infrastructure/persistence/task_repository.go:29-45 | exactly the stored tasks satisfying the column condition, each once |
| TaskStore.TaskTable.FindByType | internal/infrastructure/persistence/task_repository.go:29-36 | exactly the stored tasks of that type, each once |
| TaskStore.TaskTable.FindByStatus | internal/infrastructure/persistence/task_repository.go:38-45 | exactly the stored tasks with that status, each once |
| TaskStore.TaskTable.Save | internal/infrastructure/persistence/task_repository.go:47-50 | insert: adds the row, or fails with DuplicateKey and changes nothing |
| TaskStore.TaskTable.Update | internal/infrastructure/persistence/task_repository.go:52-55 | replaces an existing row; a missing row is a no-op that succeeds |
| TaskStore.TaskTable.Delete | internal/infrastructure/persistence/task_repository.go:57-60 | the row with that id is gone, others unchanged |
| TaskLifecycle.Retried | internal/application/task_service.go:103-105 | retry count up by exactly one, status waiting, update time set; no other field changes |
| TaskLifecycle.RetriesAreBounded | internal/application/task_service.go:98-104 | of n successive retries exactly min(n, maxRetry - retryCount) succeed and the count never passes maxRetry |
| TaskLifecycle.TaskService.constructor | internal/application/task_service.go:16-21 | the service holds the given table and queue |
| TaskLifecycle.TaskService.CreateTask | internal/application/task_service.go:23-29 | saves first; pushes only if the save succeeded |
| TaskLifecycle.TaskService.DeleteTask | internal/application/task_service.go:47-54 | removes from the queue first; if that fails the row stays |
| TaskLifecycle.TaskService.PauseTask | internal/application/task_service.go:56-72 | an unknown id or a failed queue removal changes nothing; otherwise the task leaves the queue, and is stored with status paused unless the update fails, which leaves the row as it was |
| TaskLifecycle.TaskService.ResumeTask | internal/application/task_service.go:74-90 | an unknown id or a failed update changes nothing; otherwise stored as waiting whatever its status, then pushed |
| TaskLifecycle.TaskService.RetryTask | internal/application/task_service.go:92-114 | unknown id, exhausted retries or a failed update change nothing; otherwise one more retry, waiting, pushed, with retryCount <= maxRetry |
| Processor.Requeued | internal/infrastructure/processor/task_processor.go:101-104 | a failed message is republished iff retries < maxRetries, with retries one higher and at most maxRetries |
| Processor.FailureChainIsBounded | internal/infrastructure/processor/task_processor.go:100-109 | a message failing every time is republished exactly max(0, maxRetries - retries) times, the k-th copy with retries + k + 1 |
| Processor.FreshMessageRetriesAtMostMax | internal/infrastructure/processor/task_processor.go:102-103 | a message starting at 0 retries is republished exactly maxRetries times |
| Processor.TaskProcessor.constructor | internal/infrastructure/processor/task_processor.go:25-33 | no handlers, nothing published |
| Processor.TaskProcessor.RegisterHandler | internal/infrastructure/processor/task_processor.go:36-38 | stores the handler under its type, overwriting an earlier one |
| Processor.TaskProcessor.ProcessTask | internal/infrastructure/processor/task_processor.go:84-113 | consume error and unknown type fail without republishing; success publishes nothing; failure republishes once with retries + 1 while the budget lasts and still returns an error |
| Middleware.Auth | internal/interfaces/api/middleware.go:21-62 | empty header and a header without "Bearer " are rejected with their messages; otherwise the token is the header minus exactly that prefix, and the validator's verdict decides |
| Middleware.AuthAcceptsExactlyBearerTokens | internal/interfaces/api/middleware.go:34-44 | "Bearer " + token is decided by validating exactly `token` |
| Middleware.StatusMessage | internal/interfaces/api/middleware.go:124-152 | the ten known codes get fixed messages; other codes keep the buffer text |
| Middleware.ErrorHandler | internal/interfaces/api/middleware.go:116-160 | a non-empty response is left untouched; otherwise the status is kept and the message is StatusMessage |
| Middleware.StatusMessagesDistinct | internal/interfaces/api/middleware.go:124-152 | the ten known codes have ten different messages |
| Middleware.RateLimitKey | internal/interfaces/api/middleware.go:182 | the key is "rate_limit:" followed by the address, ":" and the path |
| Middleware.RateLimitKeyInjective | internal/interfaces/api/middleware.go:182 | two keys are equal only for the same address and path, for addresses without '/' and paths starting with '/' |
| Middleware.Prune | internal/interfaces/api/middleware.go:193 | ZREMRANGEBYSCORE 0..now-window removes exactly the members with a score in that range, keeping the others' scores |
| Middleware.Admit | internal/interfaces/api/middleware.go:193-217 | admitted iff fewer than `limit` members remain after pruning; admission leaves exactly the pruned set plus `now` (member and score); rejection leaves exactly the pruned set |
| Middleware.Store | internal/interfaces/api/middleware.go:214-217 | writing one key's set leaves every other key's set as it was |
| Middleware.RateLimiter.constructor | internal/interfaces/api/middleware.go:174-176 | no sorted sets exist |
| Middleware.RateLimiter.RateLimit | internal/interfaces/api/middleware.go:174-223 | fails open and changes nothing when Redis is down; otherwise the key's set becomes Admit's and a rejection is 429 with the fixed message |
| Middleware.AdmitKeepsSetWithinLimit | internal/interfaces/api/middleware.go:204-217 | a set within the limit stays within the limit |
| Middleware.SameSecondBurstUnlimited | internal/interfaces/api/middleware.go:214-217 | as written, any number of same-second requests are all admitted once the limit is at least 2 |
| Middleware.ThreeRequestsPastALimitOfTwo | internal/interfaces/api/middleware.go:204-217 | as written, three requests in one second all pass a limit of 2 |
| Middleware.PruneScores | internal/interfaces/api/middleware.go:193 | intended reading: pruning a list of request times keeps exactly those outside 0..cutoff |
| Middleware.AdmitEach | internal/interfaces/api/middleware.go:193-217 | intended reading: admitted iff fewer than `limit` requests remain, and each admitted request is recorded |
| Middleware.PruneScoresIdempotent | internal/interfaces/api/middleware.go:193 | pruning twice is pruning once |
| Middleware.SameSecondBurstBoundedEach | internal/interfaces/api/middleware.go:204-217 | intended reading: a same-second burst admits exactly the room left under the limit |
| Middleware.PruneScoresKeeps | internal/interfaces/api/middleware.go:193 | pruning keeps a list with no member in range unchanged |
| Middleware.BurstNeverExceedsLimit | internal/interfaces/api/middleware.go:204-217 | intended reading: no burst admits more than `limit` requests |
| Middleware.FirstMissing | internal/interfaces/api/middleware.go:271-281 | the first required field absent from the parameters, all earlier ones present; None iff all present |
| Middleware.ValidateRequest | internal/interfaces/api/middleware.go:258-308 | a parse error gives its message; with every field present an invalid string type gives "无效的任务类型" before the priority is looked at, and then a numeric priority outside 0..3 gives "优先级必须在0-3之间"; None iff the request passes |
| Middleware.MissingFieldsReportedInOrder | internal/interfaces/api/middleware.go:271-281 | missing fields are reported in the order work_id, batch_id, type |
| Validator.ValidateUsername | internal/infrastructure/utils/validator.go:10-22 | accepts iff 3..20 bytes and every character in [A-Za-z0-9_], each failure with its message |
| Validator.AcceptedUsernameLength | internal/infrastructure/utils/validator.go:10-22 | an accepted username has 3..20 characters |
| Validator.ValidatePassword | internal/infrastructure/utils/validator.go:25-47 | the rune scan accepts iff 6..20 bytes and at least one ASCII letter and one ASCII digit, each failure with its message |
| Validator.ValidateEmail | internal/infrastructure/utils/validator.go:50-62 | accepts iff empty or matching the local@domain.tld pattern |
| Validator.IndexOf | internal/infrastructure/utils/validator.go:56 | the first occurrence of a character, None iff absent |
| Validator.LastIndexOf | internal/infrastructure/utils/validator.go:56 | the last occurrence of a character, None iff absent |
| Validator.EmailPatternByScan | internal/infrastructure/utils/validator.go:56-59 | the pattern holds iff splitting at the first '@' and the last '.' gives valid parts |
| Validator.EmailHasOneAt | internal/infrastructure/utils/validator.go:56-59 | an accepted non-empty address has exactly one '@' |
| Validator.ValidateFileExtAsWritten | internal/infrastructure/utils/validator.go:65-71 | as written: accepts iff the lower-cased extension is a substring of ".mp4,.srt,.txt" |
| Validator.NoExtensionAccepted | internal/infrastructure/utils/validator.go:65-71 | as written, any name without a '.' is accepted, since the empty extension is a substring of the list |
| Validator.PartialExtensionAccepted | internal/infrastructure/utils/validator.go:65-71 | as written, any name ending in ".mp", a piece of ".mp4", is accepted |
| Validator.ValidateFileExt | internal/infrastructure/utils/validator.go:65-71 | intended reading: accepts iff the lower-cased extension is one of .mp4, .srt, .txt |
| Validator.FileExtIntendedIsStricter | internal/infrastructure/utils/validator.go:65-71 | whatever the intended check accepts, the written one accepts |
| Validator.FileExtIntendedRefuses | internal/infrastructure/utils/validator.go:65-71 | the intended check refuses every name without a '.' and every name ending in ".mp" |
| Validator.ValidateFileSize | internal/infrastructure/utils/validator.go:74-79 | accepts iff size <= 100 MiB |
| Validator.ValidatePageSize | internal/infrastructure/utils/validator.go:82-87 | accepts iff 1 <= size <= 100 |
| Validator.ValidateTaskType | internal/infrastructure/utils/validator.go:90-95 | accepts exactly 1 and 2 |
| Validator.ValidateTaskStatus | internal/infrastructure/utils/validator.go:98-103 | accepts exactly 0..5 |
| Validator.ValidatePromptType | internal/infrastructure/utils/validator.go:106-111 | accepts exactly 1 and 2 |
| Validator.ValidateWorkStatus | internal/infrastructure/utils/validator.go:114-119 | accepts exactly 0..4 |
| Validator.ValidateTranslationBatchStatus | internal/infrastructure/utils/validator.go:122-127 | accepts exactly 0..4 |
| Validator.ValidateTranslationResultStatus | internal/infrastructure/utils/validator.go:130-135 | accepts exactly 0..3 |
| Validator.ValidateUserStatus | internal/infrastructure/utils/validator.go:138-143 | accepts exactly 0 and 1 |
| Validator.ValidateRoleType | internal/infrastructure/utils/validator.go:146-151 | accepts exactly 1 and 2 |
| ErrorCodes.GetErrorCode | internal/infrastructure/utils/error.go:54-77 | every code is one of the eleven error codes, never 200; 500 exactly for nil, ErrInternalServer and foreign errors |
| ErrorCodes.SentinelCodes | internal/infrastructure/utils/error.go:54-73 | the four client sentinels map to 400, 401, 403, 404 and the five back-end ones to 501..505 |
| ErrorCodes.SentinelCodesDistinct | internal/infrastructure/utils/error.go:20-32 | distinct sentinels other than ErrInternalServer get distinct codes |
| ErrorCodes.SentinelOfCode | internal/infrastructure/utils/error.go:20-32 | a code other than 500 names the sentinel that produced it |
| ErrorCodes.SentinelOfCodeRoundTrip | internal/infrastructure/utils/error.go:54-77 | decoding the code of an error gives back its sentinel unless the code is 500 |
| ErrorCodes.NewError | internal/infrastructure/utils/error.go:41-46 | the response carries exactly the given code and message |
| ErrorCodes.IsError | internal/infrastructure/utils/error.go:49-51 | true iff the error is non-nil |
| Pkcs7.PadLength | internal/infrastructure/utils/crypto.go:20 | the padding is 1..16 bytes and completes a block |
| Pkcs7.Pad | internal/infrastructure/utils/crypto.go:20-22 | the padded length is a multiple of 16 and greater than the input's; the input is a prefix; each added byte equals the padding length |
| Pkcs7.Unpad | internal/infrastructure/utils/crypto.go:53-54 | drops as many trailing bytes as the last byte's value |
| Pkcs7.UnpadPad | internal/infrastructure/utils/crypto.go:20-22 | unpadding the padded plaintext gives the plaintext back |
| Pkcs7.PadIsWellPadded | internal/infrastructure/utils/crypto.go:20-22 | padding always yields padding valid under section 6.3 of RFC 5652 |
| Pkcs7.WellPaddedIsPadded | internal/infrastructure/utils/crypto.go:20-22 | every input padded as section 6.3 of RFC 5652 says is the padding of its unpadded prefix |
| Pkcs7.UnpadAcceptsMalformedPadding | internal/infrastructure/utils/crypto.go:53-54 | unpadding accepts inputs with a zero last byte or disagreeing pad bytes |
| ObjectKey.DateSegment | internal/infrastructure/storage/oss_service.go:78 | the "2006/01/02" layout: ten characters, slashes at 4 and 7, digits elsewhere |
| ObjectKey.DateSegmentRoundTrip | internal/infrastructure/storage/oss_service.go:78 | the date segment reads back as the date |
| ObjectKey.GenerateObjectKey | internal/infrastructure/storage/oss_service.go:76-79 | the key starts with prefix + "/", then the date segment and "/", then the filename followed by its extension |
| ObjectKey.ObjectKeyDate | internal/infrastructure/storage/oss_service.go:78 | the upload date can be read back from the key |
| ObjectKey.ObjectKeyExtension | internal/infrastructure/storage/oss_service.go:77-78 | the key has the same extension as the filename |
| ObjectKey.ExtensionDoubled | internal/infrastructure/storage/oss_service.go:77-78 | "a.srt" is stored as ".../a.srt.srt" |
| ObjectKey.NoExtensionAfterLastSlash | internal/infrastructure/storage/oss_service.go:77 | a name whose final element has no '.' gets nothing appended, whatever dots the directory part holds (as "v1.0/readme") |
| Text.Ext | internal/infrastructure/storage/oss_service.go:77 | `path.Ext`: a suffix that starts at a '.' and has no further '.' or '/'; empty iff every '.' is followed by a '/' |
| Text.Utf8Len | internal/infrastructure/utils/validator.go:11 | Go's `len` of a string is between one and four bytes per character, and the character count for ASCII |
| Text.ZeroPadValue | internal/infrastructure/utils/logger.go:83 | a zero-padded field reads back as the number modulo 10^width |
| Logger.LevelString | internal/infrastructure/utils/logger.go:99-114 | "UNKNOWN" exactly outside 0..4 |
| Logger.LevelStringsDistinct | internal/infrastructure/utils/logger.go:99-114 | the five levels have five different names |
| Logger.FormatTimestamp | internal/infrastructure/utils/logger.go:83 | the "2006-01-02 15:04:05.000" layout: 23 characters with its separators at fixed positions |
| Logger.FormattedFields | internal/infrastructure/utils/logger.go:83 | each of the seven fields of the layout is that field of the clock reading, zero-padded |
| Logger.ParseTimestamp | internal/infrastructure/utils/logger.go:83 | reading the seven digit fields back gives values within their widths |
| Logger.TimestampRoundTrip | internal/infrastructure/utils/logger.go:83 | the formatted timestamp parses back to the clock reading, so the digits are the timestamp's fields |
| Logger.FormatLogEntry | internal/infrastructure/utils/logger.go:81-96 | the line starts with "[LEVEL] timestamp message"; " Data: …" follows iff data is present; " Error: …" ends the line iff an error is present; neither present gives just the header |
| Logger.LevelLeadsLine | internal/infrastructure/utils/logger.go:85 | the line starts with the bracketed level name, closed by the first ']' |
| Logger.DataBeforeError | internal/infrastructure/utils/logger.go:87-93 | with both present, the data part comes before the error part |
| Logger.Log | internal/infrastructure/utils/logger.go:31-53 | levels 0..4 go to exactly the sink of that level with the formatted line; other levels log nothing |
| Logger.LogSinksDistinct | internal/infrastructure/utils/logger.go:41-52 | different levels go to different sinks |

## Left out

- GetStats, List, ListPriorityRules, the rule templates and the other CRUD operations of `internal/repository/task_repository.go`. They are SQL plumbing outside the rule engine; GetStats also depends on float averages and gorm session semantics.
- The content and translation handlers of `internal/service/task_service.go` and the AI clients: they make network calls.
- Database, Redis and RabbitMQ I/O, connections, serialisation and contexts. Where a failure is modelled it is a flag or a parameter, and JSON encoding is treated as injective.
- Database failures in `RuleRepository.TaskRepository` other than RecordNotFound, DuplicateKey and MissingWhereClause: the failing `UpdateRuleGroup` save of AddRuleToGroup and RemoveRuleFromGroup, and a failing rule Create, Save or Delete or priority update, are not modelled there. In adjustTaskPriority, `PriorityService.Fault` stands for the failures of its fetch, update and log calls.
- The worker goroutines, Start/Stop, schedulers and signal handling: these are concurrency.
- The AES block cipher, CBC mode, base64 and the key configuration of `crypto.go`; only the padding is modelled. AESDecrypt's panic on a ciphertext that is not a whole number of blocks is not modelled.
- JWT validation: `Auth` takes the token validator as a function parameter. The numeric code constant Auth writes comes from internal/utils, which is not part of this model.
- Redis EXPIRE on the rate-limit key: time-to-live is not modelled.
- The Logger, Compress, CORS, RequestID and Recovery middleware: these are framework I/O.
- Unicode `strings.ToLower`: the model lower-cases ASCII letters only. The allowed-extension list is ASCII, so only non-ASCII names could differ.
- Go's uint64 and int64 bounds: ids and sizes are unbounded.
- GORM's auto-increment id assignment: callers supply ids.
- The debug/info/warning/error/fatal wrappers of `logger.go`: each is Log at a fixed level. The process exit after a fatal log is not modelled.
- `internal/infrastructure/utils/validator.go` uses `filepath.Ext` without importing `path/filepath`. The model reads it as `path.Ext` on '/'-separated names.
- RuleRepository.TaskRepository.GetApplicableRules: the database does not fix the order among rules of equal priority; the model uses a stable sort over table order.
- RuleRepository.EvaluateRule: the source returns an error value that is always nil; the model has no error path.
- Processor.TaskProcessor.ProcessTask: handlers are deterministic functions of the message id and payload.
- Middleware.ValidateRequest: `IsValidTaskType` is a parameter.
- ObjectKey.GenerateObjectKey: the date is a parameter with a year of at most four digits; Go would print a longer year in full.
- Logger.FormatLogEntry: the timestamp year has at most four digits; `%v` renderings of data and errors are given as text.
- Pkcs7.Unpad: an empty input or a last byte greater than the length makes Go panic; the model requires neither to happen.
- The time gorm writes to updated_at during adjustTaskPriority is taken to be the same clock reading as the log entry's creation time.
- Database errors in the application task service: an unreachable table fails every statement, and an UPDATE that fails right after a successful lookup in pause, resume or retry is the `updateFails` parameter. The error is always `Unavailable`; its Go value is not distinguished further.

## Findings

| source | as written | input that shows it | evidently intended | confidence | as-written member | corrected member |
|---|---|---|---|---|---|---|
| internal/interfaces/api/middleware.go:214-217 | ZADD uses `now` in seconds as both member and score, so same-second requests collapse into one member and only distinct seconds count | limit 2, window 60: three requests at t = 100 are all admitted | each request counts against the limit | medium, not executed | Middleware.ThreeRequestsPastALimitOfTwo | Middleware.BurstNeverExceedsLimit |
| internal/infrastructure/utils/validator.go:65-71 | `strings.Contains(".mp4,.srt,.txt", ext)` is a substring test | any name without a '.' (extension "", e.g. "notes") and any name ending in ".mp" (e.g. "clip.mp") is accepted | the extension equals one of .mp4, .srt, .txt | high, not executed | Validator.NoExtensionAccepted, Validator.PartialExtensionAccepted | Validator.FileExtIntendedRefuses |
